/** Taking a statement out of a model's reply and classifying it (`extract_sql` and
    `detect_sql_type` of text2sql.cpp). */
module SqlText {
  import opened Common
  import opened Strings

  /** In the order in which they are looked for: a keyword counts only if none before it occurs
      anywhere in the text. */
  const KEYWORDS: seq<string> := ["SELECT", "select", "INSERT", "insert", "UPDATE", "update", "DELETE", "delete"]

  const FENCE := "```"

  predicate TrailingBlank(s: string) {
    s != "" && s[|s| - 1] in {' ', '\n', '\r'}
  }

  function Trim(s: string): string {
    if TrailingBlank(s) then Trim(s[..|s| - 1]) else s
  }

  /** First keyword of `ks` that occurs, and where it first occurs. */
  function FirstKeyword(s: string, ks: seq<string>): (r: Option<(string, nat)>)
    ensures r.None? <==> forall k :: k in ks ==> !Occurs(s, k)
    ensures r.Some? ==> r.value.0 in ks && OccursAt(s, r.value.0, r.value.1)
    ensures r.Some? ==> forall j: nat :: j < r.value.1 ==> !OccursAt(s, r.value.0, j)
  {
    if ks == [] then None
    else match Find(s, ks[0])
      case Some(pos) => Some((ks[0], pos))
      case None =>
        assert forall k :: k in ks ==> k == ks[0] || k in ks[1..];
        FirstKeyword(s, ks[1..])
  }

  function CutAtFence(s: string): string {
    match Find(s, FENCE)
    case None => s
    case Some(end) => s[..end]
  }

  /** Extraction for any list of keywords; the code's list is `KEYWORDS`. */
  function ExtractedWith(response: string, ks: seq<string>): string {
    match FirstKeyword(response, ks)
    case None => response
    case Some((_, start)) => Trim(CutAtFence(response[start..]))
  }

  function Extracted(response: string): string {
    ExtractedWith(response, KEYWORDS)
  }

  method ExtractSql(response: string) returns (sql: string)
    ensures sql == Extracted(response)
  {
    var start := Find(response, "SELECT");
    if start.None? {
      start := Find(response, "select");
    }
    if start.None? {
      start := Find(response, "INSERT");
      if start.None? {
        start := Find(response, "insert");
      }
    }
    if start.None? {
      start := Find(response, "UPDATE");
      if start.None? {
        start := Find(response, "update");
      }
    }
    if start.None? {
      start := Find(response, "DELETE");
      if start.None? {
        start := Find(response, "delete");
      }
    }
    KeywordCascade(response);
    if start.None? {
      return response;
    }
    sql := response[start.value..];
    var end := Find(sql, "```");
    if end.Some? {
      sql := sql[..end.value];
    }
    ghost var cut := sql;
    while sql != "" && (sql[|sql| - 1] == ' ' || sql[|sql| - 1] == '\n' || sql[|sql| - 1] == '\r')
      invariant Trim(sql) == Trim(cut)
      decreases |sql|
    {
      sql := sql[..|sql| - 1];
    }
  }

  /** The search over the list, unrolled. */
  lemma {:induction false} KeywordCascade(s: string)
    ensures FirstKeyword(s, KEYWORDS)
         == if Find(s, "SELECT").Some? then Some(("SELECT", Find(s, "SELECT").value))
            else if Find(s, "select").Some? then Some(("select", Find(s, "select").value))
            else if Find(s, "INSERT").Some? then Some(("INSERT", Find(s, "INSERT").value))
            else if Find(s, "insert").Some? then Some(("insert", Find(s, "insert").value))
            else if Find(s, "UPDATE").Some? then Some(("UPDATE", Find(s, "UPDATE").value))
            else if Find(s, "update").Some? then Some(("update", Find(s, "update").value))
            else if Find(s, "DELETE").Some? then Some(("DELETE", Find(s, "DELETE").value))
            else if Find(s, "delete").Some? then Some(("delete", Find(s, "delete").value))
            else None
  {
    var ks := KEYWORDS;
    assert FirstKeyword(s, ks[8..]) == None;
    KeywordStep(s, 7); KeywordStep(s, 6); KeywordStep(s, 5); KeywordStep(s, 4);
    KeywordStep(s, 3); KeywordStep(s, 2); KeywordStep(s, 1); KeywordStep(s, 0);
    assert ks[0..] == ks;
  }

  lemma KeywordStep(s: string, i: nat)
    requires i < |KEYWORDS|
    ensures FirstKeyword(s, KEYWORDS[i..])
         == match Find(s, KEYWORDS[i])
            case Some(pos) => Some((KEYWORDS[i], pos))
            case None => FirstKeyword(s, KEYWORDS[i + 1..])
  {
    assert KEYWORDS[i..][0] == KEYWORDS[i] && KEYWORDS[i..][1..] == KEYWORDS[i + 1..];
  }

  // ---------- Substrings ----------

  lemma {:induction false} TrimMeaning(s: string)
    ensures Trim(s) <= s && !TrailingBlank(Trim(s))
    ensures Trim(Trim(s)) == Trim(s)
  {
    if TrailingBlank(s) {
      TrimMeaning(s[..|s| - 1]);
    }
  }

  /** Trimming does not reach into a prefix that does not end in a blank. */
  lemma {:induction false} TrimKeepsPrefix(prefix: string, s: string)
    requires prefix <= s && prefix != "" && !TrailingBlank(prefix)
    ensures prefix <= Trim(s)
    decreases |s|
  {
    if TrailingBlank(s) {
      assert s != prefix;
      TrimKeepsPrefix(prefix, s[..|s| - 1]);
    }
  }

  /** Non-empty, without backtick, not ending in a blank: true of every keyword. */
  predicate Plain(k: string) {
    k != "" && '`' !in k && !TrailingBlank(k)
  }

  lemma KeywordsArePlain()
    ensures forall k :: k in KEYWORDS ==> Plain(k)
  {
    assert forall i :: 0 <= i < |KEYWORDS| ==> Plain(KEYWORDS[i]);
  }

  /** The fence does not occur in what stands before its first occurrence. */
  lemma CutHasNoFence(s: string)
    ensures CutAtFence(s) <= s && !Occurs(CutAtFence(s), FENCE)
  {
    var cut := CutAtFence(s);
    if Occurs(cut, FENCE) {
      var i: nat :| OccursAt(cut, FENCE, i);
      SliceOfSlice(s, 0, |cut|, i, i + |FENCE|);
      assert s[0..|cut|] == cut;
      assert OccursAt(s, FENCE, i);
    }
  }

  /** A fence cannot begin inside a plain prefix, so cutting keeps the prefix. */
  lemma CutKeepsPrefix(s: string, k: string)
    requires Plain(k) && StartsWith(s, k)
    ensures k <= CutAtFence(s)
  {
    var end := Find(s, FENCE);
    assert forall x :: 0 <= x < |k| ==> s[0..|k|][x] == s[x];
    if end.Some? {
      CharOf(s, FENCE, end.value, 0);
    }
  }

  // ---------- What extraction guarantees ----------

  /** Cutting and trimming a text that starts with a plain keyword. */
  lemma CutAndTrim(tail: string, k: string)
    requires Plain(k) && StartsWith(tail, k)
    ensures var sql := Trim(CutAtFence(tail));
            sql <= tail && k <= sql && !Occurs(sql, FENCE) && !TrailingBlank(sql)
  {
    var cut := CutAtFence(tail);
    CutKeepsPrefix(tail, k);
    CutHasNoFence(tail);
    TrimMeaning(cut);
    TrimKeepsPrefix(k, cut);
    OccursInSlice(cut, 0, |Trim(cut)|, FENCE);
    assert cut[0..|Trim(cut)|] == Trim(cut);
  }

  /** When some keyword occurs, the result is a slice of the reply that starts with the chosen
      keyword, has no fence and no trailing blank. */
  lemma ExtractionShape(response: string, ks: seq<string>)
    requires FirstKeyword(response, ks).Some?
    requires forall k :: k in ks ==> Plain(k)
    ensures var (k, start) := FirstKeyword(response, ks).value;
            var sql := ExtractedWith(response, ks);
            && start + |sql| <= |response| && sql == response[start..start + |sql|]
            && StartsWith(sql, k) && k in ks
            && !Occurs(sql, FENCE)
            && !TrailingBlank(sql)
  {
    var (k, start) := FirstKeyword(response, ks).value;
    var tail := response[start..];
    assert tail[0..|k|] == response[start..start + |k|];
    CutAndTrim(tail, k);
    var sql := Trim(CutAtFence(tail));
    assert sql[0..|k|] == k;
    assert sql == tail[..|sql|];
  }

  predicate IsBlank(c: char) {
    c == ' ' || c == '\n' || c == '\r'
  }

  predicate BlankChars(s: string) {
    forall i :: 0 <= i < |s| ==> IsBlank(s[i])
  }

  /** Trimming removes exactly a run of blanks, newlines and carriage returns. */
  lemma {:induction false} TrimRemovesBlanks(s: string)
    ensures Trim(s) <= s && BlankChars(s[|Trim(s)|..])
    ensures Trim(s) != "" ==> !IsBlank(Trim(s)[|Trim(s)| - 1])
  {
    TrimMeaning(s);
    if TrailingBlank(s) {
      var init := s[..|s| - 1];
      TrimRemovesBlanks(init);
      assert s[|Trim(s)|..] == init[|Trim(init)|..] + [s[|s| - 1]];
    }
  }

  lemma OccursInTail(s: string, start: nat, pat: string, i: nat)
    requires start <= |s|
    ensures OccursAt(s[start..], pat, i) <==> OccursAt(s, pat, start + i)
  {
    if start + i + |pat| <= |s| {
      assert s[start..][i..i + |pat|] == s[start + i..start + i + |pat|];
    }
  }

  /** Position `end` is where the first fence after `start` begins, or the end of the text. */
  ghost predicate CutPoint(s: string, start: nat, fence: string, end: nat) {
    && start <= end <= |s|
    && (end < |s| ==> OccursAt(s, fence, end))
    && forall i: nat :: start <= i && OccursAt(s, fence, i) ==> end <= i
  }

  lemma CutAtPoint(s: string, start: nat)
    requires start <= |s|
    ensures CutPoint(s, start, FENCE, start + |CutAtFence(s[start..])|)
    ensures CutAtFence(s[start..]) == s[start..start + |CutAtFence(s[start..])|]
  {
    var tail, found := s[start..], Find(s[start..], FENCE);
    forall i: nat | start <= i && OccursAt(s, FENCE, i)
      ensures found.Some? && start + found.value <= i
    {
      OccursInTail(s, start, FENCE, i - start);
    }
    if found.Some? {
      OccursInTail(s, start, FENCE, found.value);
    }
  }

  /** What stands between `start` and `end`, without the blanks, newlines and carriage returns
      before `end`. */
  predicate TrimmedSlice(s: string, start: nat, end: nat, sql: string) {
    && start + |sql| <= end <= |s|
    && sql == s[start..start + |sql|]
    && BlankChars(s[start + |sql|..end])
    && (sql != "" ==> !IsBlank(sql[|sql| - 1]))
  }

  lemma TrimIsSlice(s: string, start: nat, end: nat)
    requires start <= end <= |s|
    ensures TrimmedSlice(s, start, end, Trim(s[start..end]))
  {
    var cut := s[start..end];
    TrimRemovesBlanks(cut);
    assert cut[..|Trim(cut)|] == Trim(cut);
    assert cut[..|Trim(cut)|] == s[start..start + |Trim(cut)|];
    assert cut[|Trim(cut)|..] == s[start + |Trim(cut)|..end];
  }

  /** `sql` is what stands between `start` and the next fence, or the end, trimmed. */
  ghost predicate CutAndTrimmed(response: string, start: nat, sql: string) {
    exists end: nat :: CutPoint(response, start, "```", end) && TrimmedSlice(response, start, end, sql)
  }

  lemma CutAndTrimmedFrom(response: string, start: nat)
    requires start <= |response|
    ensures CutAndTrimmed(response, start, Trim(CutAtFence(response[start..])))
  {
    var end := start + |CutAtFence(response[start..])|;
    CutAtPoint(response, start);
    TrimIsSlice(response, start, end);
    assert CutPoint(response, start, "```", end) && TrimmedSlice(response, start, end, Trim(response[start..end]));
  }

  /** Extraction in terms of the reply alone: without a keyword the reply itself, otherwise what
      stands between the first occurrence of the chosen keyword and the next fence, or the end,
      trimmed. */
  lemma {:induction false} ExtractionExact(response: string)
    ensures FirstKeyword(response, KEYWORDS).None? ==> Extracted(response) == response
    ensures FirstKeyword(response, KEYWORDS).Some? ==>
              CutAndTrimmed(response, FirstKeyword(response, KEYWORDS).value.1, Extracted(response))
  {
    if FirstKeyword(response, KEYWORDS).Some? {
      CutAndTrimmedFrom(response, FirstKeyword(response, KEYWORDS).value.1);
    }
  }

  lemma {:induction false} SameKeyword(s: string, t: string, ks: seq<string>)
    requires FirstKeyword(s, ks).Some?
    requires forall k :: k in ks && Occurs(t, k) ==> Occurs(s, k)
    requires StartsWith(t, FirstKeyword(s, ks).value.0)
    ensures FirstKeyword(t, ks) == Some((FirstKeyword(s, ks).value.0, 0))
  {
    assert Occurs(t, FirstKeyword(s, ks).value.0);
    if Find(s, ks[0]).None? {
      SameKeyword(s, t, ks[1..]);
    }
  }

  lemma NothingToCutOrTrim(sql: string)
    requires !Occurs(sql, FENCE) && !TrailingBlank(sql)
    ensures Trim(CutAtFence(sql[0..])) == sql
  {
    assert sql[0..] == sql;
  }

  lemma SliceKeepsKeyword(response: string, from: nat, to: nat, ks: seq<string>)
    requires from <= to <= |response| && FirstKeyword(response, ks).Some?
    requires StartsWith(response[from..to], FirstKeyword(response, ks).value.0)
    ensures FirstKeyword(response[from..to], ks) == Some((FirstKeyword(response, ks).value.0, 0))
  {
    forall j | j in ks && Occurs(response[from..to], j)
      ensures Occurs(response, j)
    {
      OccursInSlice(response, from, to, j);
    }
    SameKeyword(response, response[from..to], ks);
  }

  lemma ExtractedKeepsKeyword(response: string, ks: seq<string>)
    requires FirstKeyword(response, ks).Some?
    requires forall k :: k in ks ==> Plain(k)
    ensures FirstKeyword(ExtractedWith(response, ks), ks) == Some((FirstKeyword(response, ks).value.0, 0))
  {
    var (k, start) := FirstKeyword(response, ks).value;
    var sql := ExtractedWith(response, ks);
    assert start + |sql| <= |response| && sql == response[start..start + |sql|] && StartsWith(sql, k) by {
      ExtractionShape(response, ks);
    }
    SliceKeepsKeyword(response, start, start + |sql|, ks);
  }

  lemma {:induction false} IdempotentWith(response: string, ks: seq<string>)
    requires forall k :: k in ks ==> Plain(k)
    ensures ExtractedWith(ExtractedWith(response, ks), ks) == ExtractedWith(response, ks)
  {
    if FirstKeyword(response, ks).Some? {
      ExtractedKeepsKeyword(response, ks);
      ExtractionShape(response, ks);
      NothingToCutOrTrim(ExtractedWith(response, ks));
    }
  }

  /** Extracting again changes nothing, for every reply. */
  lemma {:induction false} ExtractionIdempotent(response: string)
    ensures Extracted(Extracted(response)) == Extracted(response)
  {
    KeywordsArePlain();
    IdempotentWith(response, KEYWORDS);
  }

  // ---------- Classification ----------

  datatype SqlType =
    | Select | Insert | Update | Delete | Create | Alter | Drop | Truncate
    | Begin | Commit | Rollback | Unknown

  /** `toupper` in the C locale. */
  function ToUpper(c: char): char {
    if 'a' <= c <= 'z' then (c as int - 'a' as int + 'A' as int) as char else c
  }

  function Upper(s: string): string {
    seq(|s|, i requires 0 <= i < |s| => ToUpper(s[i]))
  }

  /** In the order of the tests. */
  const SQL_TYPES: seq<SqlType> := [Select, Insert, Update, Delete, Create, Alter, Drop, Truncate, Begin, Commit, Rollback]

  /** The keyword that makes a statement of type `t`. */
  function Opening(t: SqlType): string {
    match t
    case Select => "SELECT" case Insert => "INSERT" case Update => "UPDATE" case Delete => "DELETE"
    case Create => "CREATE" case Alter => "ALTER" case Drop => "DROP" case Truncate => "TRUNCATE"
    case Begin => "BEGIN" case Commit => "COMMIT" case Rollback => "ROLLBACK" case Unknown => ""
  }

  /** The chain of tests `upper.find(keyword) == 0`. */
  function FirstOpening(upper: string, types: seq<SqlType>): (t: SqlType)
    requires Unknown !in types
    ensures t.Unknown? || (t in types && Find(upper, Opening(t)) == Some(0))
    ensures forall u :: u in types && Find(upper, Opening(u)) == Some(0) ==> !t.Unknown?
  {
    if types == [] then Unknown
    else if Find(upper, Opening(types[0])) == Some(0) then types[0]
    else
      assert forall u :: u in types ==> u == types[0] || u in types[1..];
      FirstOpening(upper, types[1..])
  }

  function DetectSqlType(sql: string): SqlType {
    FirstOpening(Upper(sql), SQL_TYPES)
  }

  lemma OpeningsDifferEarly(t: SqlType, u: SqlType)
    requires !t.Unknown? && !u.Unknown? && t != u
    ensures |Opening(t)| >= 2 && |Opening(u)| >= 2
    ensures Opening(t)[0] != Opening(u)[0] || Opening(t)[1] != Opening(u)[1]
  {
  }

  lemma OneOpening(upper: string, t: SqlType, u: SqlType)
    requires !t.Unknown? && !u.Unknown?
    requires StartsWith(upper, Opening(t)) && StartsWith(upper, Opening(u))
    ensures t == u
  {
    if t != u {
      OpeningsDifferEarly(t, u);
      CharsShared(upper, Opening(t), Opening(u));
    }
  }

  lemma CharsShared(s: string, a: string, b: string)
    requires StartsWith(s, a) && StartsWith(s, b) && |a| >= 2 && |b| >= 2
    ensures a[0] == b[0] && a[1] == b[1]
  {
    CharOf(s, a, 0, 0); CharOf(s, a, 0, 1);
    CharOf(s, b, 0, 0); CharOf(s, b, 0, 1);
  }

  lemma EveryTypeIsTested(t: SqlType)
    ensures t.Unknown? || t in SQL_TYPES
  {
    assert SQL_TYPES[0] == Select && SQL_TYPES[1] == Insert && SQL_TYPES[2] == Update && SQL_TYPES[3] == Delete;
    assert SQL_TYPES[4] == Create && SQL_TYPES[5] == Alter && SQL_TYPES[6] == Drop && SQL_TYPES[7] == Truncate;
    assert SQL_TYPES[8] == Begin && SQL_TYPES[9] == Commit && SQL_TYPES[10] == Rollback;
  }

  /** The order of the tests is irrelevant: the type is the one whose keyword opens the text in
      any mixture of cases, if there is one. */
  lemma {:induction false} DetectIff(sql: string, t: SqlType)
    requires !t.Unknown?
    ensures DetectSqlType(sql) == t <==> StartsWith(Upper(sql), Opening(t))
  {
    var upper, found := Upper(sql), DetectSqlType(sql);
    FindZero(upper, Opening(t));
    FindZero(upper, Opening(found));
    EveryTypeIsTested(t);
    if StartsWith(upper, Opening(t)) {
      OneOpening(upper, t, found);
    }
  }

  /** The text begins with this word of capital letters, each in either case. */
  predicate OpensWith(sql: string, word: string) {
    |word| <= |sql| && forall i :: 0 <= i < |word| ==> sql[i] == word[i] || sql[i] as int == word[i] as int + 32
  }

  predicate Capitals(word: string) {
    forall i :: 0 <= i < |word| ==> 'A' <= word[i] <= 'Z'
  }

  lemma OpensWithIff(sql: string, word: string)
    requires Capitals(word)
    ensures StartsWith(Upper(sql), word) <==> OpensWith(sql, word)
  {
    if StartsWith(Upper(sql), word) {
      forall i | 0 <= i < |word|
        ensures sql[i] == word[i] || sql[i] as int == word[i] as int + 32
      {
        CharOf(Upper(sql), word, 0, i);
      }
    }
    if OpensWith(sql, word) {
      forall i | 0 <= i < |word|
        ensures Upper(sql)[i] == word[i]
      {
      }
      assert Upper(sql)[0..|word|] == word;
    }
  }

  lemma OpeningsAreCapitals(t: SqlType)
    ensures Capitals(Opening(t))
  {
  }

  lemma DetectWord(sql: string, t: SqlType)
    requires !t.Unknown?
    ensures DetectSqlType(sql) == t <==> OpensWith(sql, Opening(t))
  {
    DetectIff(sql, t);
    OpeningsAreCapitals(t);
    OpensWithIff(sql, Opening(t));
  }

  /** The eleven words, and nothing else, make a statement known. */
  lemma {:induction false} DetectWords(sql: string)
    ensures DetectSqlType(sql) == Select <==> OpensWith(sql, "SELECT")
    ensures DetectSqlType(sql) == Insert <==> OpensWith(sql, "INSERT")
    ensures DetectSqlType(sql) == Update <==> OpensWith(sql, "UPDATE")
    ensures DetectSqlType(sql) == Delete <==> OpensWith(sql, "DELETE")
    ensures DetectSqlType(sql) == Create <==> OpensWith(sql, "CREATE")
    ensures DetectSqlType(sql) == Alter <==> OpensWith(sql, "ALTER")
    ensures DetectSqlType(sql) == Drop <==> OpensWith(sql, "DROP")
    ensures DetectSqlType(sql) == Truncate <==> OpensWith(sql, "TRUNCATE")
    ensures DetectSqlType(sql) == Begin <==> OpensWith(sql, "BEGIN")
    ensures DetectSqlType(sql) == Commit <==> OpensWith(sql, "COMMIT")
    ensures DetectSqlType(sql) == Rollback <==> OpensWith(sql, "ROLLBACK")
  {
    DetectWord(sql, Select); DetectWord(sql, Insert); DetectWord(sql, Update); DetectWord(sql, Delete);
    DetectWord(sql, Create); DetectWord(sql, Alter); DetectWord(sql, Drop); DetectWord(sql, Truncate);
    DetectWord(sql, Begin); DetectWord(sql, Commit); DetectWord(sql, Rollback);
  }

  /** Whatever is extracted is a query or a data change, by the keyword it starts with. */
  lemma {:induction false} ExtractionClassified(response: string)
    requires FirstKeyword(response, KEYWORDS).Some?
    ensures DetectSqlType(Extracted(response)) in {Select, Insert, Update, Delete}
    ensures Upper(FirstKeyword(response, KEYWORDS).value.0) == Opening(DetectSqlType(Extracted(response)))
  {
    KeywordsArePlain();
    ExtractionShape(response, KEYWORDS);
    var k := FirstKeyword(response, KEYWORDS).value.0;
    UpperPrefix(Extracted(response), k);
    DetectIff(Extracted(response), KeywordType(k));
  }

  lemma UpperPrefix(s: string, k: string)
    requires StartsWith(s, k)
    ensures StartsWith(Upper(s), Upper(k))
  {
    assert k == s[0..|k|];
    assert Upper(k) == Upper(s)[0..|k|];
  }

  function KeywordType(k: string): (t: SqlType)
    requires k in KEYWORDS
    ensures t in {Select, Insert, Update, Delete} && Opening(t) == Upper(k)
  {
    if k == "SELECT" || k == "select" then Select
    else if k == "INSERT" || k == "insert" then Insert
    else if k == "UPDATE" || k == "update" then Update
    else Delete
  }

  // ---------- Fenced statements ----------

  /** An occurrence inside `a + b` lies in `a`, lies in `b`, or straddles the boundary. */
  lemma SplitOccurrence(a: string, b: string, pat: string, i: nat)
    requires OccursAt(a + b, pat, i)
    ensures i + |pat| <= |a| ==> OccursAt(a, pat, i)
    ensures i >= |a| ==> OccursAt(b, pat, i - |a|)
    ensures forall j :: 0 <= j < |pat| ==> (a + b)[i + j] == pat[j]
  {
    var s := a + b;
    if i + |pat| <= |a| {
      assert a[i..i + |pat|] == s[i..i + |pat|];
    }
    if i >= |a| {
      assert b[i - |a|..i - |a| + |pat|] == s[i..i + |pat|];
    }
    forall j | 0 <= j < |pat|
      ensures s[i + j] == pat[j]
    {
      assert s[i..i + |pat|][j] == s[i + j];
    }
  }

  const OPEN_FENCE := "```sql\n"

  /** No SELECT begins inside or across the opening fence. */
  lemma SelectNotInFence(prefix: string, rest: string, i: nat)
    requires !Occurs(prefix, "SELECT")
    requires OccursAt(prefix + (OPEN_FENCE + rest), "SELECT", i)
    ensures i >= |prefix + OPEN_FENCE|
  {
    var s := prefix + (OPEN_FENCE + rest);
    SplitOccurrence(prefix, OPEN_FENCE + rest, "SELECT", i);
    if i < |prefix| {
      CharOf(s, "SELECT", i, |prefix| - i);
    } else {
      CharOf(s, "SELECT", i, 0);
    }
  }

  lemma SelectStartsAtStatement(prefix: string, rest: string)
    requires !Occurs(prefix, "SELECT") && StartsWith(rest, "SELECT")
    ensures Find(prefix + OPEN_FENCE + rest, "SELECT") == Some(|prefix + OPEN_FENCE|)
  {
    var at := |prefix + OPEN_FENCE|;
    var s := prefix + OPEN_FENCE + rest;
    assert s == prefix + (OPEN_FENCE + rest);
    assert s[at..at + 6] == rest[0..6];
    assert OccursAt(s, "SELECT", at);
    forall i: nat | OccursAt(s, "SELECT", i)
      ensures i >= at
    {
      SelectNotInFence(prefix, rest, i);
    }
  }

  /** No fence begins inside the statement or across the newline after it. */
  lemma FenceNotBeforeNewline(s: string, more: string, i: nat)
    requires !Occurs(s, FENCE)
    requires OccursAt(s + ("\n" + more), FENCE, i)
    ensures i >= |s| + 1
  {
    SplitOccurrence(s, "\n" + more, FENCE, i);
    if i <= |s| {
      CharOf(s + ("\n" + more), FENCE, i, |s| - i);
    }
  }

  lemma FenceStartsAfterNewline(s: string, tail: string)
    requires !Occurs(s, FENCE)
    ensures Find(s + "\n" + FENCE + tail, FENCE) == Some(|s| + 1)
  {
    var text := s + "\n" + FENCE + tail;
    assert text[|s| + 1..|s| + 4] == FENCE;
    assert OccursAt(text, FENCE, |s| + 1);
    assert text == s + ("\n" + (FENCE + tail));
    forall i: nat | OccursAt(text, FENCE, i)
      ensures i >= |s| + 1
    {
      FenceNotBeforeNewline(s, FENCE + tail, i);
    }
  }

  lemma FirstIsSelect(s: string)
    requires Find(s, "SELECT").Some?
    ensures FirstKeyword(s, KEYWORDS) == Some(("SELECT", Find(s, "SELECT").value))
  {
    KeywordCascade(s);
  }

  lemma TrimNewline(s: string)
    requires !TrailingBlank(s)
    ensures Trim(s + "\n") == s
  {
    assert (s + "\n")[..|s + "\n"| - 1] == s;
  }

  /** A statement written between fences, after prose without SELECT and before anything at all,
      is recovered exactly. */
  lemma FencedRoundTrip(prefix: string, s: string, tail: string)
    requires StartsWith(s, "SELECT") && !Occurs(s, FENCE) && !TrailingBlank(s)
    requires !Occurs(prefix, "SELECT")
    ensures Extracted(prefix + OPEN_FENCE + (s + "\n" + FENCE + tail)) == s
  {
    var rest := s + "\n" + FENCE + tail;
    var response := prefix + OPEN_FENCE + rest;
    assert rest[0..6] == s[0..6];
    SelectStartsAtStatement(prefix, rest);
    FirstIsSelect(response);
    assert response[|prefix + OPEN_FENCE|..] == rest;
    FenceStartsAfterNewline(s, tail);
    assert rest[..|s| + 1] == s + "\n";
    TrimNewline(s);
  }
}
