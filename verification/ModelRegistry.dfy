/** Model instances: the persistent catalog row of each model, the cache of live instances in
    one backend, and the functions that add, remove and lazily load them. */
module ModelRegistry {
  import opened Common
  import opened Envelope

  /** The fields of a parsed configuration that these functions read. */
  datatype Settings = Settings(
    provider: string, accessKeyId: string, accessKeySecret: string, hasAccessKeySecret: bool,
    confidenceThreshold: real, fallbackInstance: string)

  const NO_SETTINGS := Settings("", "", "", false, 0.0, "")

  /** JSON parsing (`None` unless the text is a JSON object), the cipher and the settings of the
      server, all fixed during a run. */
  datatype Environment = Environment(
    parse: Text -> Option<Settings>, crypto: Crypto, masterKey: string, redactSensitive: bool)

  datatype ModelInfo = ModelInfo(
    localModel: bool, modelType: string, instanceName: string, apiKey: Text, config: Text,
    encryptedApiKey: string, encryptedConfig: string,
    confidenceThreshold: real, fallbackInstance: string)

  /** An initialised `LLMInterface`. */
  datatype Model = Model(modelType: string, localModel: bool, apiKey: Text, config: Text)

  type Catalog = map<string, ModelInfo>

  /** `model_creators_`: the stored closure makes a model of the type it captured. */
  datatype Creator = Creator(modelType: string)

  datatype State = State(catalog: Catalog, creators: map<string, Creator>, instances: map<string, Model>)

  const EMPTY_STATE := State(map[], map[], map[])

  /** `LLMInterface::initialize`. */
  predicate Initializes(env: Environment, model: Model) {
    match env.parse(model.config)
    case None => false
    case Some(settings) =>
      || model.modelType == "mock" || settings.provider == "mock"
      || model.localModel
      || model.apiKey != ""
      || (settings.accessKeyId != "" && settings.accessKeySecret != "")
  }

  /** `create_model_instance`: a failed initialisation is logged at a level that raises. */
  datatype Creation = Created | UnknownType | InitRaised

  function CreateInstance(env: Environment, st: State, name: string, model: Model): (State, Creation) {
    if model.modelType !in st.creators then (st, UnknownType)
    else
      var made := model.(modelType := st.creators[model.modelType].modelType);
      if !Initializes(env, made) then (st, InitRaised)
      else (st.(instances := st.instances[name := made]), Created)
  }

  function Register(st: State, modelType: string): State {
    st.(creators := st.creators[modelType := Creator(modelType)])
  }

  // ---------- Adding ----------

  /** Arguments of `pg_llm_add_model` and the two random vectors it draws. */
  datatype Addition = Addition(name: string, model: Model, keyIv: seq<Byte>, configIv: seq<Byte>)

  datatype AddError = BadJson | EncryptionFailed | InitFailed

  const ENCRYPTED_MARKER: Text := "{\"encrypted\":true}"

  function Redact(env: Environment, input: Text): Text {
    if !env.redactSensitive || input == "" then input
    else if |input| <= 4 then "****"
    else input[..2] + "****" + input[|input| - 2..]
  }

  /** `pg_llm_parse_json`, which accepts the empty text. */
  function ParseSettings(env: Environment, config: Text): Option<Settings> {
    if config == "" then Some(NO_SETTINGS) else env.parse(config)
  }

  predicate NeedsEncryption(settings: Settings, model: Model) {
    model.apiKey != "" || settings.hasAccessKeySecret
  }

  /** The catalog row for an addition. */
  function RowFor(env: Environment, add: Addition): Result<ModelInfo, AddError> {
    match ParseSettings(env, add.model.config)
    case None => Err(BadJson)
    case Some(settings) =>
      var plain := ModelInfo(add.model.localModel, add.model.modelType, add.name, add.model.apiKey, add.model.config,
                             "", "", settings.confidenceThreshold, settings.fallbackInstance);
      if !NeedsEncryption(settings, add.model) then Ok(plain)
      else match (Encrypt(env.crypto, env.masterKey, add.keyIv, add.model.apiKey),
                  Encrypt(env.crypto, env.masterKey, add.configIv, add.model.config))
        case (Ok(key), Ok(config)) =>
          Ok(plain.(apiKey := Redact(env, add.model.apiKey), config := ENCRYPTED_MARKER,
                    encryptedApiKey := key, encryptedConfig := config))
        case _ => Err(EncryptionFailed)
  }

  /** `pg_llm_add_model`: an error takes the upserted row back, but not the registration. */
  function AddModel(env: Environment, st: State, add: Addition): (State, Option<AddError>) {
    match RowFor(env, add)
    case Err(e) => (st, Some(e))
    case Ok(row) =>
      var registered := Register(st, add.model.modelType);
      var (created, outcome) := CreateInstance(env, registered, add.name, add.model);
      if outcome.Created? then (created.(catalog := created.catalog[add.name := row]), None)
      else (registered, Some(InitFailed))
  }

  function RemoveModel(st: State, name: string): (State, bool) {
    (st.(catalog := st.catalog - {name}, instances := st.instances - {name}),
     name in st.catalog || name in st.instances)
  }

  // ---------- Loading ----------

  /** The model a row describes, decrypted where it is encrypted. */
  function Rebuild(env: Environment, row: ModelInfo): Option<Model> {
    var key := if row.encryptedApiKey == "" then Ok(row.apiKey)
               else Decrypt(env.crypto, env.masterKey, row.encryptedApiKey);
    var config := if row.encryptedConfig == "" then Ok(row.config)
                  else Decrypt(env.crypto, env.masterKey, row.encryptedConfig);
    if key.Ok? && config.Ok? then Some(Model(row.modelType, row.localModel, key.value, config.value)) else None
  }

  datatype Lookup = Found(model: Model) | NotFound | Raised

  function GetModel(env: Environment, st: State, name: string): (State, Lookup) {
    if name in st.instances then (st, Found(st.instances[name]))
    else if name !in st.catalog then (st, NotFound)
    else match Rebuild(env, st.catalog[name])
      case None => (st, NotFound)
      case Some(model) =>
        var (created, outcome) := CreateInstance(env, Register(st, model.modelType), name, model);
        (created, if outcome.Created? then Found(created.instances[name]) else Raised)
  }

  // ---------- Runs ----------

  datatype Op = Add(add: Addition) | Remove(name: string) | Get(name: string) | Restart

  function Step(env: Environment, st: State, op: Op): State {
    match op
    case Add(add) => AddModel(env, st, add).0
    case Remove(name) => RemoveModel(st, name).0
    case Get(name) => GetModel(env, st, name).0
    case Restart => st.(creators := map[], instances := map[])
  }

  function Run(env: Environment, ops: seq<Op>): State {
    if ops == [] then EMPTY_STATE else Step(env, Run(env, ops[..|ops| - 1]), ops[|ops| - 1])
  }

  predicate AddSucceeds(env: Environment, add: Addition) {
    RowFor(env, add).Ok? && Initializes(env, add.model)
  }

  /** The last successful change of `name`, when it was an addition. */
  function LastAdd(env: Environment, ops: seq<Op>, name: string): Option<Addition> {
    if ops == [] then None
    else
      var last := ops[|ops| - 1];
      if last.Add? && last.add.name == name && AddSucceeds(env, last.add) then Some(last.add)
      else if last.Remove? && last.name == name then None
      else LastAdd(env, ops[..|ops| - 1], name)
  }

  /** Still in the backend that last added `name` successfully. */
  predicate Live(env: Environment, ops: seq<Op>, name: string) {
    ops != [] &&
      var last := ops[|ops| - 1];
      || (last.Add? && last.add.name == name && AddSucceeds(env, last.add))
      || (!last.Restart? && Live(env, ops[..|ops| - 1], name))
  }

  /** Stored in plain, or in two payloads that do not end in a zero byte. */
  predicate Reloadable(env: Environment, add: Addition) {
    var settings := ParseSettings(env, add.model.config);
    settings.Some? && NeedsEncryption(settings.value, add.model) ==>
      && Recoverable(env.crypto, env.masterKey, add.keyIv, add.model.apiKey)
      && Recoverable(env.crypto, env.masterKey, add.configIv, add.model.config)
  }

  predicate DrawsVectors(add: Addition) {
    |add.keyIv| == IV_SIZE && |add.configIv| == IV_SIZE
  }

  ghost predicate AllDrawVectors(ops: seq<Op>) {
    forall op :: op in ops && op.Add? ==> DrawsVectors(op.add)
  }

  /** An added model can be read back from its row exactly when it is reloadable. */
  lemma RebuildIff(env: Environment, add: Addition)
    requires Lawful(env.crypto) && DrawsVectors(add) && RowFor(env, add).Ok?
    ensures Rebuild(env, RowFor(env, add).value) == Some(add.model) <==> Reloadable(env, add)
  {
    var settings := ParseSettings(env, add.model.config).value;
    if NeedsEncryption(settings, add.model) {
      EnvelopeRoundTrip(env.crypto, env.masterKey, add.keyIv, add.model.apiKey);
      EnvelopeRoundTrip(env.crypto, env.masterKey, add.configIv, add.model.config);
    }
  }

  ghost predicate CreatorsMatch(st: State) {
    forall t :: t in st.creators ==> st.creators[t] == Creator(t)
  }

  /** Catalog row and instance of one name against its last successful change. A live addition
      has an instance; an instance is the added model exactly when the addition is live or
      reloadable. */
  ghost predicate Coherent(env: Environment, st: State, name: string, last: Option<Addition>, live: bool) {
    && CreatorsMatch(st)
    && match last
       case None => name !in st.catalog && name !in st.instances
       case Some(add) =>
         && AddSucceeds(env, add)
         && name in st.catalog && Ok(st.catalog[name]) == RowFor(env, add)
         && (live ==> name in st.instances)
         && (name in st.instances ==> (st.instances[name] == add.model <==> live || Reloadable(env, add)))
  }

  lemma AddCoherent(env: Environment, st: State, add: Addition, name: string, last: Option<Addition>, live: bool)
    requires Coherent(env, st, name, last, live)
    ensures var (st', error), own := AddModel(env, st, add), add.name == name && AddSucceeds(env, add);
            && (error.None? <==> AddSucceeds(env, add))
            && Coherent(env, st', name, if own then Some(add) else last, own || live)
  {
  }

  /** `RebuildIff` for the last addition, as a fact about one name. */
  ghost predicate Rebuilds(env: Environment, last: Option<Addition>) {
    last.Some? && RowFor(env, last.value).Ok? ==>
      (Rebuild(env, RowFor(env, last.value).value) == Some(last.value.model) <==> Reloadable(env, last.value))
  }

  /** `after` is `before`, or has one instance more, rebuilt from its row. */
  ghost predicate MayCache(env: Environment, before: State, queried: string, after: State) {
    && CreatorsMatch(after)
    && after.catalog == before.catalog
    && (after.instances == before.instances
        || (&& queried !in before.instances && queried in before.catalog
            && Rebuild(env, before.catalog[queried]).Some?
            && after.instances == before.instances[queried := Rebuild(env, before.catalog[queried]).value]))
  }

  lemma GetMayCache(env: Environment, st: State, queried: string)
    requires CreatorsMatch(st)
    ensures MayCache(env, st, queried, GetModel(env, st, queried).0)
  {
  }

  /** A lookup may cache a wrongly rebuilt model, but never in place of a live one. */
  lemma CachedCoherent(env: Environment, st: State, queried: string, after: State, name: string, last: Option<Addition>, live: bool)
    requires Coherent(env, st, name, last, live) && Rebuilds(env, last)
    requires MayCache(env, st, queried, after)
    ensures Coherent(env, after, name, last, live)
  {
  }

  lemma GetCoherent(env: Environment, st: State, queried: string, name: string, last: Option<Addition>, live: bool)
    requires Coherent(env, st, name, last, live) && Rebuilds(env, last)
    ensures Coherent(env, GetModel(env, st, queried).0, name, last, live)
  {
    var after := GetModel(env, st, queried).0;
    GetMayCache(env, st, queried);
    CachedCoherent(env, st, queried, after, name, last, live);
  }

  /** What a lookup answers in a coherent state, cached or not. */
  lemma GetAnswer(env: Environment, st: State, name: string, last: Option<Addition>, live: bool)
    requires Coherent(env, st, name, last, live) && Rebuilds(env, last)
    ensures last.None? ==> GetModel(env, st, name).1 == NotFound
    ensures last.Some? ==>
              (GetModel(env, st, name).1 == Found(last.value.model) <==> Reloadable(env, last.value) || live)
  {
  }

  lemma StepCoherent(env: Environment, st: State, op: Op, name: string, last: Option<Addition>, live: bool)
    requires Coherent(env, st, name, last, live) && Rebuilds(env, last)
    ensures var added := op.Add? && op.add.name == name && AddSucceeds(env, op.add);
            Coherent(env, Step(env, st, op), name,
                     if added then Some(op.add) else if op.Remove? && op.name == name then None else last,
                     added || (!op.Restart? && live))
  {
    match op
    case Add(add) => AddCoherent(env, st, add, name, last, live);
    case Get(queried) => GetCoherent(env, st, queried, name, last, live);
    case Remove(_) =>
    case Restart =>
  }

  lemma {:induction false} RunCoherent(env: Environment, ops: seq<Op>, name: string)
    requires Lawful(env.crypto) && AllDrawVectors(ops)
    ensures Coherent(env, Run(env, ops), name, LastAdd(env, ops, name), Live(env, ops, name))
    ensures Rebuilds(env, LastAdd(env, ops, name))
    decreases |ops|
  {
    if ops != [] {
      var init, op := ops[..|ops| - 1], ops[|ops| - 1];
      RunCoherent(env, init, name);
      StepCoherent(env, Run(env, init), op, name, LastAdd(env, init, name), Live(env, init, name));
      assert op in ops;
      if op.Add? && RowFor(env, op.add).Ok? { RebuildIff(env, op.add); }
    }
  }

  /** After every run of additions, removals, lookups and restarts: nothing is found for a name
      whose last successful change was not an addition; otherwise exactly the added type, key and
      configuration are found if and only if that addition is reloadable or was made by this very
      backend, whatever was cached in between. */
  lemma {:induction false} InstanceCoherence(env: Environment, ops: seq<Op>, name: string)
    requires Lawful(env.crypto) && AllDrawVectors(ops)
    ensures var found, last := GetModel(env, Run(env, ops), name).1, LastAdd(env, ops, name);
            && (last.None? ==> found == NotFound)
            && (last.Some? ==>
                  (found == Found(last.value.model) <==> Reloadable(env, last.value) || Live(env, ops, name)))
  {
    RunCoherent(env, ops, name);
    GetAnswer(env, Run(env, ops), name, LastAdd(env, ops, name), Live(env, ops, name));
  }

  lemma PushOp(env: Environment, ops: seq<Op>, op: Op, name: string)
    requires AllDrawVectors(ops) && (op.Add? ==> DrawsVectors(op.add))
    ensures AllDrawVectors(ops + [op])
    ensures var added := op.Add? && op.add.name == name && AddSucceeds(env, op.add);
            && (added ==> LastAdd(env, ops + [op], name) == Some(op.add))
            && (op.Restart? ==> LastAdd(env, ops + [op], name) == LastAdd(env, ops, name))
            && (Live(env, ops + [op], name) <==> added || (!op.Restart? && Live(env, ops, name)))
  {
    assert (ops + [op])[..|ops + [op]| - 1] == ops;
  }

  /** In a fresh backend only reloadability is left. */
  lemma ReloadIff(env: Environment, ops: seq<Op>, name: string)
    requires Lawful(env.crypto) && AllDrawVectors(ops)
    requires LastAdd(env, ops, name).Some?
    ensures var add := LastAdd(env, ops, name).value;
            GetModel(env, Run(env, ops + [Restart]), name).1 == Found(add.model) <==> Reloadable(env, add)
  {
    PushOp(env, ops, Restart, name);
    InstanceCoherence(env, ops + [Restart], name);
  }

  /** Every successful addition that is not reloadable, after any history, is found by the
      backend that made it and lost to the next. */
  lemma {:induction false} AddedModelIsLost(env: Environment, before: seq<Op>, add: Addition)
    requires Lawful(env.crypto) && AllDrawVectors(before)
    requires DrawsVectors(add) && AddSucceeds(env, add) && !Reloadable(env, add)
    ensures var ops := before + [Add(add)];
            && GetModel(env, Run(env, ops), add.name).1 == Found(add.model)
            && GetModel(env, Run(env, ops + [Restart]), add.name).1 != Found(add.model)
  {
    PushOp(env, before, Add(add), add.name);
    InstanceCoherence(env, before + [Add(add)], add.name);
    ReloadIff(env, before + [Add(add)], add.name);
  }

  lemma KeyedModelIsAdded(env: Environment, add: Addition)
    requires Lawful(env.crypto) && env.masterKey != "" && DrawsVectors(add)
    requires add.model.apiKey != "" && env.parse(add.model.config).Some?
    ensures AddSucceeds(env, add)
  {
    EnvelopeRoundTrip(env.crypto, env.masterKey, add.keyIv, add.model.apiKey);
    EnvelopeRoundTrip(env.crypto, env.masterKey, add.configIv, add.model.config);
  }

  /** Such additions exist: under the shift cipher every model with an API key has a vector
      whose draw loses it, whatever its configuration and the parser. */
  lemma {:induction false} SomeVectorLosesModel(env: Environment, name: string, model: Model, configIv: seq<Byte>)
    requires env.crypto == SHIFT_CIPHER && env.masterKey != ""
    requires model.apiKey != "" && env.parse(model.config).Some? && |configIv| == IV_SIZE
    ensures var add := Addition(name, model, UnluckyVector(model.apiKey), configIv);
            && DrawsVectors(add) && AddSucceeds(env, add) && !Reloadable(env, add)
  {
    var add := Addition(name, model, UnluckyVector(model.apiKey), configIv);
    assert AddSucceeds(env, add) by {
      ShiftCipherIsLawful();
      KeyedModelIsAdded(env, add);
    }
    UnluckyVectorLoses(env.masterKey, model.apiKey);
  }

  // ---------- What the catalog holds ----------

  /** The addition brings a secret: an API key, or a configuration with an access key secret. */
  predicate BringsSecret(env: Environment, add: Addition) {
    || add.model.apiKey != ""
    || (add.model.config != "" && env.parse(add.model.config).Some?
        && env.parse(add.model.config).value.hasAccessKeySecret)
  }

  /** What a row shows of a key: everything without redaction, else at most two characters at
      either end of a key of more than four. */
  ghost predicate ShowsKey(env: Environment, key: Text, shown: Text) {
    if !env.redactSensitive || key == "" then shown == key
    else if |key| <= 4 then shown == "****"
    else |shown| == 8 && shown[..2] == key[..2] && shown[2..6] == "****" && shown[6..] == key[|key| - 2..]
  }

  /** The row of an addition: both columns encrypted and the configuration replaced if and only if
      the addition brings a secret, otherwise everything in plain; routing columns as configured. */
  ghost predicate RowHolds(env: Environment, add: Addition, row: ModelInfo) {
    && row.instanceName == add.name && row.modelType == add.model.modelType && row.localModel == add.model.localModel
    && (row.encryptedApiKey != "" <==> BringsSecret(env, add))
    && (row.encryptedConfig != "" <==> BringsSecret(env, add))
    && (BringsSecret(env, add) ==> row.config == "{\"encrypted\":true}" && ShowsKey(env, add.model.apiKey, row.apiKey))
    && (!BringsSecret(env, add) ==> row.config == add.model.config && row.apiKey == "")
    && (add.model.config == "" ==> row.confidenceThreshold == 0.0 && row.fallbackInstance == "")
    && (add.model.config != "" ==>
          && env.parse(add.model.config).Some?
          && row.confidenceThreshold == env.parse(add.model.config).value.confidenceThreshold
          && row.fallbackInstance == env.parse(add.model.config).value.fallbackInstance)
  }

  lemma RedactShows(env: Environment, key: Text)
    ensures ShowsKey(env, key, Redact(env, key))
  {
  }

  lemma CipherTextNotEmpty(crypto: Crypto, masterKey: string, iv: seq<Byte>, plain: Text)
    requires |iv| == IV_SIZE
    ensures Encrypt(crypto, masterKey, iv, plain).Ok? <==> masterKey != ""
    ensures masterKey != "" ==> Encrypt(crypto, masterKey, iv, plain).value != ""
  {
  }

  lemma RowForHolds(env: Environment, add: Addition)
    requires DrawsVectors(add) && RowFor(env, add).Ok?
    ensures RowHolds(env, add, RowFor(env, add).value)
  {
    CipherTextNotEmpty(env.crypto, env.masterKey, add.keyIv, add.model.apiKey);
    CipherTextNotEmpty(env.crypto, env.masterKey, add.configIv, add.model.config);
    RedactShows(env, add.model.apiKey);
  }

  /** A model that `initialize` accepts: a mock, a local one, or one with credentials. */
  predicate HasCredentials(model: Model, settings: Settings) {
    || model.modelType == "mock" || settings.provider == "mock" || model.localModel
    || model.apiKey != "" || (settings.accessKeyId != "" && settings.accessKeySecret != "")
  }

  lemma RowForFailsIff(env: Environment, add: Addition)
    requires DrawsVectors(add) && (add.model.config == "" || env.parse(add.model.config).Some?)
    ensures RowFor(env, add) == Err(EncryptionFailed) <==> BringsSecret(env, add) && env.masterKey == ""
    ensures RowFor(env, add) != Err(BadJson)
  {
    CipherTextNotEmpty(env.crypto, env.masterKey, add.keyIv, add.model.apiKey);
    CipherTextNotEmpty(env.crypto, env.masterKey, add.configIv, add.model.config);
  }

  /** Why an addition fails, in the order of the checks: its configuration is not a JSON object; it
      brings a secret and there is no master key; the model has no credentials, which the empty
      configuration cannot give. Then catalog and instances stay as they were. */
  lemma {:induction false} AddFailsIff(env: Environment, st: State, add: Addition)
    requires DrawsVectors(add)
    ensures var (after, error) := AddModel(env, st, add);
            var settings := env.parse(add.model.config);
            && (error == Some(BadJson) <==> add.model.config != "" && settings.None?)
            && (error == Some(EncryptionFailed) <==>
                  && (add.model.config == "" || settings.Some?)
                  && BringsSecret(env, add) && env.masterKey == "")
            && (error == Some(InitFailed) <==>
                  && (add.model.config == "" || settings.Some?)
                  && (BringsSecret(env, add) ==> env.masterKey != "")
                  && (settings.None? || !HasCredentials(add.model, settings.value)))
            && (error.Some? ==> after.catalog == st.catalog && after.instances == st.instances)
            && (error.None? ==> add.name in after.catalog && RowHolds(env, add, after.catalog[add.name]))
  {
    if add.model.config == "" || env.parse(add.model.config).Some? {
      RowForFailsIff(env, add);
    }
    if RowFor(env, add).Ok? {
      RowForInitializes(env, add);
    }
  }

  lemma RowForInitializes(env: Environment, add: Addition)
    requires DrawsVectors(add) && RowFor(env, add).Ok?
    ensures Initializes(env, add.model) ==> RowHolds(env, add, RowFor(env, add).value)
    ensures Initializes(env, add.model)
       <==> env.parse(add.model.config).Some? && HasCredentials(add.model, env.parse(add.model.config).value)
  {
    RowForHolds(env, add);
  }

  /** A type nobody registered creates nothing; a registered one stays registered until the backend
      ends, so creation after registration fails for want of credentials only. */
  lemma CreationOutcome(env: Environment, st: State, name: string, model: Model)
    requires CreatorsMatch(st)
    ensures var (after, outcome) := CreateInstance(env, st, name, model);
            && (outcome == UnknownType <==> model.modelType !in st.creators)
            && (outcome == Created <==>
                  && model.modelType in st.creators
                  && env.parse(model.config).Some? && HasCredentials(model, env.parse(model.config).value))
            && after == (if outcome.Created? then st.(instances := st.instances[name := model]) else st)
  {
  }

  lemma CreatorsStay(env: Environment, st: State, op: Op, modelType: string)
    requires CreatorsMatch(st)
    ensures !op.Restart? && modelType in st.creators ==> modelType in Step(env, st, op).creators
    ensures op.Restart? ==> modelType !in Step(env, st, op).creators
    ensures op.Add? && RowFor(env, op.add).Ok? ==> op.add.model.modelType in Step(env, st, op).creators
  {
  }

  /** `text` is stored as it is, or, under an encrypted column, is what that column decrypts to. */
  predicate StoredAs(env: Environment, text: Text, plain: Text, encrypted: string) {
    if encrypted == "" then text == plain else Decrypt(env.crypto, env.masterKey, encrypted) == Ok(text)
  }

  /** Which model a row rebuilds to, and that a column that does not decrypt yields none. */
  lemma RebuildExact(env: Environment, row: ModelInfo, model: Model)
    ensures Rebuild(env, row) == Some(model)
       <==> && model.modelType == row.modelType && model.localModel == row.localModel
            && StoredAs(env, model.apiKey, row.apiKey, row.encryptedApiKey)
            && StoredAs(env, model.config, row.config, row.encryptedConfig)
  {
  }

  /** The three outcomes of a lookup. A row that cannot be decrypted is reported like a missing
      one; a rebuilt model without credentials raises. */
  lemma LookupOutcome(env: Environment, st: State, name: string)
    requires CreatorsMatch(st)
    ensures var found := GetModel(env, st, name).1;
            if name in st.instances then found == Found(st.instances[name])
            else if name !in st.catalog || Rebuild(env, st.catalog[name]).None? then found == NotFound
            else
              var model := Rebuild(env, st.catalog[name]).value;
              found == if env.parse(model.config).Some? && HasCredentials(model, env.parse(model.config).value)
                       then Found(model) else Raised
  {
  }

  /** Every row of the catalog, after every run, is that of its name's last successful addition,
      with secrets encrypted if and only if that addition brought some. */
  lemma {:induction false} CatalogHidesSecrets(env: Environment, ops: seq<Op>, name: string)
    requires Lawful(env.crypto) && AllDrawVectors(ops)
    ensures name in Run(env, ops).catalog <==> LastAdd(env, ops, name).Some?
    ensures name in Run(env, ops).catalog ==> RowHolds(env, LastAdd(env, ops, name).value, Run(env, ops).catalog[name])
  {
    RunCoherent(env, ops, name);
    LastAddDraws(env, ops, name);
    if LastAdd(env, ops, name).Some? {
      RowForHolds(env, LastAdd(env, ops, name).value);
    }
  }

  lemma {:induction false} LastAddDraws(env: Environment, ops: seq<Op>, name: string)
    requires AllDrawVectors(ops)
    ensures LastAdd(env, ops, name).Some? ==> DrawsVectors(LastAdd(env, ops, name).value) && LastAdd(env, ops, name).value.name == name
    decreases |ops|
  {
    if ops != [] {
      assert ops[|ops| - 1] in ops;
      LastAddDraws(env, ops[..|ops| - 1], name);
    }
  }

  /** After every run a removal answers true exactly when the last successful change of the name
      was an addition, and then nothing is found under it. */
  lemma {:induction false} RemoveAnswers(env: Environment, ops: seq<Op>, name: string)
    requires Lawful(env.crypto) && AllDrawVectors(ops)
    ensures var (after, answer) := RemoveModel(Run(env, ops), name);
            && (answer <==> LastAdd(env, ops, name).Some?)
            && GetModel(env, after, name).1 == NotFound
  {
    RunCoherent(env, ops, name);
  }

  // ---------- The objects ----------

  /** The table `pg_llm_models`, keyed by instance name. */
  class CatalogTable {
    var models: Catalog

    constructor ()
      ensures models == map[]
    {
      models := map[];
    }

    /** `INSERT ... ON CONFLICT (instance_name) DO UPDATE`. */
    method Upsert(info: ModelInfo)
      modifies this
      ensures models == old(models)[info.instanceName := info]
    {
      models := models[info.instanceName := info];
    }

    method Delete(name: string) returns (deleted: bool)
      modifies this
      ensures models == old(models) - {name} && deleted == (name in old(models))
    {
      deleted := name in models;
      models := models - {name};
    }

    method GetInfo(name: string) returns (info: Option<ModelInfo>)
      ensures info == if name in models then Some(models[name]) else None
    {
      info := if name in models then Some(models[name]) else None;
    }
  }

  class ModelManager {
    const env: Environment
    const table: CatalogTable
    var creators: map<string, Creator>
    var instances: map<string, Model>

    ghost function View(): State
      reads this, table
    {
      State(table.models, creators, instances)
    }

    constructor (env: Environment, table: CatalogTable)
      ensures this.env == env && this.table == table
      ensures View() == State(table.models, map[], map[])
    {
      this.env, this.table := env, table;
      creators, instances := map[], map[];
    }

    method RegisterModel(modelType: string)
      modifies `creators
      ensures View() == Register(old(View()), modelType)
    {
      creators := creators[modelType := Creator(modelType)];
    }

    method CreateModelInstance(name: string, model: Model) returns (outcome: Creation)
      modifies `instances
      ensures (View(), outcome) == CreateInstance(env, old(View()), name, model)
    {
      if model.modelType !in creators { return UnknownType; }
      var made := model.(modelType := creators[model.modelType].modelType);
      if !Initializes(env, made) { return InitRaised; }
      instances := instances[name := made];
      outcome := Created;
    }

    /** The recursive call finds the instance in the map: depth at most one. */
    method Load(name: string) returns (found: Lookup)
      modifies this
      ensures (View(), found) == GetModel(env, old(View()), name)
      decreases if name in instances then 0 else 1
    {
      if name in instances { return Found(instances[name]); }
      var info := table.GetInfo(name);
      if info.None? { return NotFound; }
      var model := Rebuild(env, info.value);
      if model.None? { return NotFound; }
      RegisterModel(model.value.modelType);
      var outcome := CreateModelInstance(name, model.value);
      if outcome.Created? {
        found := Load(name);
      } else {
        found := Raised;
      }
    }

    /** A failed addition leaves the catalog and the live instances as they were. */
    method Add(add: Addition) returns (error: Option<AddError>)
      modifies this, table
      ensures (View(), error) == AddModel(env, old(View()), add)
      ensures error.Some? ==> table.models == old(table.models) && instances == old(instances)
      ensures error.None? <==> AddSucceeds(env, add)
    {
      var row := RowFor(env, add);
      if row.Err? { return Some(row.error); }
      var savepoint := table.models;
      table.Upsert(row.value);
      RegisterModel(add.model.modelType);
      var outcome := CreateModelInstance(add.name, add.model);
      if !outcome.Created? {
        table.models := savepoint;
        return Some(InitFailed);
      }
      error := None;
    }

    method Remove(name: string) returns (success: bool)
      modifies this, table
      ensures (View(), success) == RemoveModel(old(View()), name)
    {
      success := name in instances;
      instances := instances - {name};
      var deleted := table.Delete(name);
      success := deleted || success;
    }
  }
}
