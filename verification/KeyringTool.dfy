/**
 The offline keyring tool: each command edits the document it read and replaces the file only after the new
 document has been loaded successfully.
 */
module KeyringTool {
  import opened Wrappers
  import opened Text
  import opened Leases
  import opened KeyRings

  /** What is at the path: nothing, a regular file (its mode, and its document if it parses), or something else. */
  datatype Target = Absent | Regular(isPrivate: bool, content: Option<Document>) | Special

  datatype Command =
    | Generate(algorithm: Algorithm, kid: Kid, days: nat, material: string)
    | Add(algorithm: Algorithm, kid: Kid, days: nat, material: string)
    | Activate(algorithm: Algorithm, kid: Kid)
    | Retire(algorithm: Algorithm, kid: Kid)
    | Validate(algorithm: Algorithm)

  /** Which steps of writing a file work, and whether a temporary file that is no longer needed can be removed. */
  datatype Io = Io(parentIsDirectory: bool, created: bool, filled: bool, renamed: bool, removed: bool)

  predicate Writable(io: Io) {
    io.parentIsDirectory && io.created && io.filled && io.renamed
  }

  /** Clock readings of one run of the tool, and how its file operations go. */
  datatype Env = Env(read: Instant, keyMade: Instant, written: Instant, io: Io)

  datatype ToolError = Refused

  const MAX_VALIDITY_DAYS: nat := 3_650
  const FIVE_MINUTES: int := 300 * NANOS
  const ONE_DAY: int := 86_400 * NANOS

  predicate KidOk(kid: Kid) {
    0 < |kid| <= 64 &&
    forall i :: 0 <= i < |kid| ==> IsDigit(kid[i]) || IsUpper(kid[i]) || IsLower(kid[i]) || kid[i] == '.' || kid[i] == '_' || kid[i] == '-'
  }

  predicate ArgumentsOk(command: Command) {
    match command
    case Generate(_, kid, days, _) => 1 <= days <= MAX_VALIDITY_DAYS && KidOk(kid)
    case Add(_, kid, days, _) => 1 <= days <= MAX_VALIDITY_DAYS && KidOk(kid)
    case Activate(_, kid) => KidOk(kid)
    case Retire(_, kid) => KidOk(kid)
    case Validate(_) => true
  }

  function NewKey(kid: Kid, material: string, days: nat, now: Instant): KeySpec {
    KeySpec(kid, material, now - FIVE_MINUTES, now + days * ONE_DAY)
  }

  predicate HasKid(keys: seq<KeySpec>, kid: Kid) {
    exists i :: 0 <= i < |keys| && keys[i].kid == kid
  }

  /** `retain(|key| key.kid != kid)`. */
  function Without(keys: seq<KeySpec>, kid: Kid): seq<KeySpec> {
    if keys == [] then []
    else
      var earlier, last := Without(keys[..|keys| - 1], kid), keys[|keys| - 1];
      if last.kid == kid then earlier else earlier + [last]
  }

  /** The document a command turns the one it read into. */
  function Edited(command: Command, doc: Document, now: Instant): Option<Document> {
    match command
    case Add(_, kid, days, material) =>
      if HasKid(doc.keys, kid) then None else Some(doc.(keys := doc.keys + [NewKey(kid, material, days, now)]))
    case Activate(_, kid) =>
      if HasKid(doc.keys, kid) then Some(doc.(currentKid := kid)) else None
    case Retire(_, kid) =>
      if doc.currentKid == kid || !HasKid(doc.keys, kid) then None else Some(doc.(keys := Without(doc.keys, kid)))
    case _ => None
  }

  function Generated(command: Command, now: Instant): Document
    requires command.Generate?
  {
    Document(VersionOf(command.algorithm), command.kid, [NewKey(command.kid, command.material, command.days, now)])
  }

  function AlgorithmOf(doc: Document): Algorithm {
    if doc.version == KEYRING_VERSION then Es256 else Rsa
  }

  ghost predicate PrivateAndLoadable(target: Target, now: Instant, algorithm: Algorithm, decode: Decoder) {
    target.Regular? && target.isPrivate && target.content.Some? && Loadable(target.content.value, now, algorithm, decode)
  }

  /** A command succeeds and leaves `doc` at the path. */
  ghost predicate Writes(before: Target, command: Command, env: Env, decode: Decoder, doc: Document) {
    && ArgumentsOk(command)
    && (match command
        case Generate(_, _, _, _) => before.Absent? && doc == Generated(command, env.keyMade)
        case Validate(_) => false
        case _ =>
          PrivateAndLoadable(before, env.read, command.algorithm, decode) &&
          Edited(command, before.content.value, env.keyMade) == Some(doc))
    && Writable(env.io)
    && Loadable(doc, env.written, AlgorithmOf(doc), decode)
  }

  /** What one run of the tool may do to the path: replace it by a loadable private file, or leave it alone. */
  ghost predicate Runs(before: Target, command: Command, env: Env, decode: Decoder, after: Target, r: Result<(), ToolError>) {
    if command.Validate? then
      after == before && (r.Ok? <==> PrivateAndLoadable(before, env.read, command.algorithm, decode))
    else if r.Ok? then
      exists doc :: Writes(before, command, env, decode, doc) && after == Regular(true, Some(doc))
    else
      after == before && forall doc :: !Writes(before, command, env, decode, doc)
  }

  class Tool {
    var target: Target
    const decode: Decoder

    /** Temporary files beside the path that could not be removed. */
    var strays: seq<Target>

    constructor (target: Target, decode: Decoder)
      ensures this.target == target && this.decode == decode && strays == []
    {
      this.target, this.decode, strays := target, decode, [];
    }

    method ValidatePrivate(file: Target, now: Instant, algorithm: Algorithm) returns (ok: bool)
      ensures ok <==> PrivateAndLoadable(file, now, algorithm, decode)
    {
      if !file.Regular? || !file.isPrivate || file.content.None? {
        return false;
      }
      var ring := Load(file.content.value, now, 0, algorithm, decode);
      return ring.Ok?;
    }

    /**
     Writes to a temporary file, validates it, and renames it over the path.  Any failure leaves the path alone, and
     removes the temporary file if that works; one that stays is private too.
     */
    method WritePrivate(doc: Document, replace: bool, env: Env) returns (r: Result<(), ToolError>)
      modifies this
      ensures r.Ok? <==> (replace || old(target).Absent?) && Writable(env.io) && Loadable(doc, env.written, AlgorithmOf(doc), decode)
      ensures target == if r.Ok? then Regular(true, Some(doc)) else old(target)
      ensures r.Ok? || env.io.removed ==> strays == old(strays)
      ensures strays == old(strays) || exists left: Target :: left.Regular? && left.isPrivate && strays == old(strays) + [left]
    {
      if !env.io.parentIsDirectory {
        return Err(Refused);
      }
      if !replace && !target.Absent? {
        return Err(Refused);
      }
      if !env.io.created {
        return Err(Refused);
      }
      var temporary := Regular(true, None);
      var done := env.io.filled;
      if done {
        temporary := Regular(true, Some(doc));
        done := ValidatePrivate(temporary, env.written, if doc.version == KEYRING_VERSION then Es256 else Rsa);
      }
      done := done && env.io.renamed;
      if done {
        target := temporary;
        return Ok(());
      }
      if !env.io.removed {
        strays := strays + [temporary];
      }
      return Err(Refused);
    }

    method Retain(keys: seq<KeySpec>, kid: Kid) returns (kept: seq<KeySpec>)
      ensures kept == Without(keys, kid)
    {
      kept := [];
      for i := 0 to |keys|
        invariant kept == Without(keys[..i], kid)
      {
        assert keys[..i + 1][..i] == keys[..i];
        if keys[i].kid != kid {
          kept := kept + [keys[i]];
        }
      }
      assert keys[..|keys|] == keys;
    }

    method Run(command: Command, env: Env) returns (r: Result<(), ToolError>)
      modifies this
      ensures Runs(old(target), command, env, decode, target, r)
      ensures r.Ok? || env.io.removed ==> strays == old(strays)
    {
      hide Loadable, KidOk;
      if !ArgumentsOk(command) {
        return Err(Refused);
      }
      match command {
        case Generate(algorithm, kid, days, material) =>
          if !target.Absent? {
            return Err(Refused);
          }
          r := WritePrivate(Document(VersionOf(algorithm), kid, [NewKey(kid, material, days, env.keyMade)]), false, env);
          return;
        case Validate(algorithm) =>
          var ok := ValidatePrivate(target, env.read, algorithm);
          return if ok then Ok(()) else Err(Refused);
        case _ =>
      }
      var ok := ValidatePrivate(target, env.read, command.algorithm);
      if !ok {
        return Err(Refused);
      }
      var document := target.content.value;
      var present := HasKid(document.keys, command.kid);
      match command {
        case Add(_, kid, days, material) =>
          if present {
            return Err(Refused);
          }
          document := document.(keys := document.keys + [NewKey(kid, material, days, env.keyMade)]);
        case Activate(_, kid) =>
          if !present {
            return Err(Refused);
          }
          document := document.(currentKid := kid);
        case Retire(_, kid) =>
          if document.currentKid == kid {
            return Err(Refused);
          }
          if !present {
            return Err(Refused);
          }
          var kept := Retain(document.keys, kid);
          document := document.(keys := kept);
        case _ =>
      }
      assert Edited(command, target.content.value, env.keyMade) == Some(document);
      r := WritePrivate(document, true, env);
    }
  }

  // ----- what one command does to the published keys -----

  ghost function Kids(keys: seq<KeySpec>): set<Kid> {
    set spec | spec in keys :: spec.kid
  }

  lemma {:induction false} WithoutMeaning(keys: seq<KeySpec>, kid: Kid)
    ensures forall spec :: spec in Without(keys, kid) <==> spec in keys && spec.kid != kid
  {
    if keys != [] {
      assert keys == keys[..|keys| - 1] + [keys[|keys| - 1]];
      WithoutMeaning(keys[..|keys| - 1], kid);
    }
  }

  /** Add grows the key set by one, activate keeps it, retire removes one key that is not the current one. */
  lemma EditEffects(command: Command, doc: Document, now: Instant)
    requires Edited(command, doc, now).Some?
    ensures var after := Edited(command, doc, now).value;
      && after.version == doc.version
      && (match command
          case Add(_, kid, _, _) =>
            kid !in Kids(doc.keys) && Kids(after.keys) == Kids(doc.keys) + {kid} && after.currentKid == doc.currentKid
          case Activate(_, kid) =>
            kid in Kids(doc.keys) && after.keys == doc.keys && after.currentKid == kid
          case Retire(_, kid) =>
            kid in Kids(doc.keys) && kid != doc.currentKid &&
            Kids(after.keys) == Kids(doc.keys) - {kid} && after.currentKid == doc.currentKid
          case _ => false)
      && (forall spec :: spec in doc.keys && !(command.Retire? && command.kid == spec.kid) ==> spec in after.keys)
  {
    var after := Edited(command, doc, now).value;
    match command {
      case Add(_, kid, days, material) =>
        var added := NewKey(kid, material, days, now);
        assert after.keys == doc.keys + [added];
        forall k | k in Kids(doc.keys) + {kid} ensures k in Kids(after.keys) {
          if k == kid {
            assert added in after.keys;
          } else {
            var spec :| spec in doc.keys && spec.kid == k;
            assert spec in after.keys;
          }
        }
      case Activate(_, kid) =>
      case Retire(_, kid) =>
        WithoutMeaning(doc.keys, kid);
        forall k | k in Kids(doc.keys) - {kid} ensures k in Kids(after.keys) {
          var spec :| spec in doc.keys && spec.kid == k;
          assert spec in after.keys;
        }
      case _ =>
    }
  }

  // ----- exactly when a command succeeds -----

  /**
   A generate command succeeds exactly if nothing is at the path and the one-key file can be written and loaded; it
   is then at the path.  The key is valid from five minutes before to the given days after it was made.
   */
  lemma GenerateExactly(before: Target, command: Command, env: Env, decode: Decoder, after: Target, r: Result<(), ToolError>)
    requires command.Generate? && Runs(before, command, env, decode, after, r)
    ensures var doc := Document(VersionOf(command.algorithm), command.kid,
                                [KeySpec(command.kid, command.material, env.keyMade - 300 * NANOS,
                                         env.keyMade + command.days * 86_400 * NANOS)]);
      && (r.Ok? <==> && 1 <= command.days <= 3_650 && KidOk(command.kid) && before.Absent? && Writable(env.io)
                     && Loadable(doc, env.written, command.algorithm, decode))
      && after == if r.Ok? then Regular(true, Some(doc)) else before
  {
    hide Loadable, KidOk;
    var doc := Generated(command, env.keyMade);
    VersionsTellAlgorithms(command.algorithm);
    assert command.days * ONE_DAY == command.days * 86_400 * NANOS;
    if r.Err? { assert !Writes(before, command, env, decode, doc); }
  }

  lemma VersionsTellAlgorithms(algorithm: Algorithm)
    ensures forall doc: Document :: doc.version == VersionOf(algorithm) ==> AlgorithmOf(doc) == algorithm
  {
    assert |KEYRING_VERSION| != |RSA_KEYRING_VERSION|;
  }

  lemma LoadableVersion(doc: Document, now: Instant, algorithm: Algorithm, decode: Decoder)
    ensures Loadable(doc, now, algorithm, decode) ==> doc.version == VersionOf(algorithm)
  {
  }

  /** The document a command asks for: a key more, another current key, or a key less. */
  ghost predicate Asks(command: Command, doc: Document, made: Instant, edited: Document) {
    && edited.version == doc.version
    && edited.currentKid == (if command.Activate? then command.kid else doc.currentKid)
    && (command.Add? ==>
          edited.keys == doc.keys + [KeySpec(command.kid, command.material, made - 300 * NANOS, made + command.days * 86_400 * NANOS)])
    && (command.Activate? ==> edited.keys == doc.keys)
    && (command.Retire? ==> edited.keys == Without(doc.keys, command.kid))
  }

  /**
   A command on a file succeeds exactly if the file is private and loads, the command makes sense (add: a new ID;
   activate: an ID in the file; retire: one in the file that is not current), and what it asks for can be written and
   loads; it is then at the path.
   */
  lemma EditExactly(before: Target, command: Command, env: Env, decode: Decoder, after: Target, r: Result<(), ToolError>)
    returns (edited: Document)
    requires command.Add? || command.Activate? || command.Retire?
    requires Runs(before, command, env, decode, after, r)
    ensures PrivateAndLoadable(before, env.read, command.algorithm, decode) ==>
      var doc := before.content.value;
      var known := exists i :: 0 <= i < |doc.keys| && doc.keys[i].kid == command.kid;
      && Asks(command, doc, env.keyMade, edited)
      && (r.Ok? <==>
            && KidOk(command.kid) && (command.Add? ==> 1 <= command.days <= 3_650)
            && (command.Add? ==> !known) && (command.Activate? ==> known)
            && (command.Retire? ==> known && doc.currentKid != command.kid)
            && Writable(env.io) && Loadable(edited, env.written, command.algorithm, decode))
      && after == if r.Ok? then Regular(true, Some(edited)) else before
    ensures !PrivateAndLoadable(before, env.read, command.algorithm, decode) ==> r.Err? && after == before
  {
    hide Loadable, KidOk, Without;
    VersionsTellAlgorithms(command.algorithm);
    if PrivateAndLoadable(before, env.read, command.algorithm, decode) {
      var doc := before.content.value;
      LoadableVersion(doc, env.read, command.algorithm, decode);
      edited :=
        if command.Add? then doc.(keys := doc.keys + [NewKey(command.kid, command.material, command.days, env.keyMade)])
        else if command.Activate? then doc.(currentKid := command.kid)
        else doc.(keys := Without(doc.keys, command.kid));
      assert command.Add? ==> command.days * ONE_DAY == command.days * 86_400 * NANOS;
      if r.Err? { assert !Writes(before, command, env, decode, edited); }
    } else {
      edited := Document("", "", []);
    }
  }

  // ----- runs -----

  /** One entry of a run: the command, its readings, its result, and what is at the path afterwards. */
  datatype Entry = Entry(command: Command, env: Env, result: Result<(), ToolError>, after: Target)

  function Before(start: Target, run: seq<Entry>, i: nat): Target
    requires i <= |run|
  {
    if i == 0 then start else run[i - 1].after
  }

  ghost predicate IsRun(start: Target, run: seq<Entry>, decode: Decoder) {
    forall i :: 0 <= i < |run| ==>
      Runs(Before(start, run, i), run[i].command, run[i].env, decode, run[i].after, run[i].result)
  }

  /** The file was written, loadable and private, by this successful command. */
  ghost predicate WrittenBy(e: Entry, target: Target, decode: Decoder) {
    && e.result.Ok? && target.Regular? && target.isPrivate && target.content.Some?
    && Loadable(target.content.value, e.env.written, AlgorithmOf(target.content.value), decode)
  }

  lemma StepWritesLoadable(before: Target, e: Entry, decode: Decoder)
    requires Runs(before, e.command, e.env, decode, e.after, e.result)
    ensures e.after == before || WrittenBy(e, e.after, decode)
    ensures e.result.Err? ==> e.after == before
  {
  }

  /** Whatever is at the path is the file the run began with, or was loadable when it was written. */
  lemma {:induction false} FileWasLoadable(start: Target, run: seq<Entry>, decode: Decoder)
    requires IsRun(start, run, decode)
    ensures var end := Before(start, run, |run|);
            end == start || exists i :: 0 <= i < |run| && WrittenBy(run[i], end, decode)
    decreases |run|
  {
    hide Runs, WrittenBy;
    if run != [] {
      var n := |run| - 1;
      var shorter := run[..n];
      assert forall i :: 0 <= i <= n ==> Before(start, shorter, i) == Before(start, run, i);
      assert forall i :: 0 <= i < n ==> shorter[i] == run[i];
      FileWasLoadable(start, shorter, decode);
      StepWritesLoadable(Before(start, run, n), run[n], decode);
    }
  }

  predicate Holds(target: Target, spec: KeySpec) {
    target.Regular? && target.content.Some? && spec in target.content.value.keys
  }

  ghost predicate RetiredIn(run: seq<Entry>, kid: Kid) {
    exists i :: 0 <= i < |run| && run[i].result.Ok? && run[i].command.Retire? && run[i].command.kid == kid
  }

  lemma StepKeepsKey(before: Target, e: Entry, spec: KeySpec, decode: Decoder)
    requires Runs(before, e.command, e.env, decode, e.after, e.result) && Holds(before, spec)
    ensures Holds(e.after, spec) || (e.result.Ok? && e.command.Retire? && e.command.kid == spec.kid)
  {
    hide Loadable;
    if e.after != before {
      var doc :| Writes(before, e.command, e.env, decode, doc) && e.after == Regular(true, Some(doc));
      EditEffects(e.command, before.content.value, e.env.keyMade);
    }
  }

  /**
   A key in the file stays in it, with the same material and window, until it is retired; so it leaves the
   published set only by a successful retire command or by expiry.
   */
  lemma {:induction false} KeyStaysUntilRetired(start: Target, run: seq<Entry>, decode: Decoder, spec: KeySpec)
    requires IsRun(start, run, decode) && Holds(start, spec)
    requires !RetiredIn(run, spec.kid)
    ensures Holds(Before(start, run, |run|), spec)
    decreases |run|
  {
    hide Runs;
    if run != [] {
      var n := |run| - 1;
      var shorter := run[..n];
      assert forall i :: 0 <= i <= n ==> Before(start, shorter, i) == Before(start, run, i);
      assert forall i :: 0 <= i < n ==> shorter[i] == run[i];
      KeyStaysUntilRetired(start, shorter, decode, spec);
      StepKeepsKey(Before(start, run, n), run[n], spec, decode);
    }
  }

  /** Loading such a file later publishes the key exactly as long as it has not expired. */
  lemma KeptKeyIsPublished(target: Target, spec: KeySpec, ring: KeyRing, now: Instant, algorithm: Algorithm, decode: Decoder)
    requires Holds(target, spec)
    requires Loadable(target.content.value, now, algorithm, decode) && RingOf(ring, target.content.value, now, decode)
    ensures spec.kid in ring.keys <==> now < spec.notAfter
  {
    var keys := target.content.value.keys;
    var i :| 0 <= i < |keys| && keys[i] == spec;
    if spec.kid in ring.keys {
      assert Retained(keys, spec.kid, now);
      var j :| 0 <= j < |keys| && keys[j].kid == spec.kid && now < keys[j].notAfter;
      assert i == j;
    }
  }

  /** Once the current key is outside its window no command but generate succeeds, and generate needs an empty path. */
  lemma ExpiredCurrentKeyLocksFile(before: Target, e: Entry, decode: Decoder)
    requires Runs(before, e.command, e.env, decode, e.after, e.result)
    requires before.Regular? && before.content.Some? && !HasCurrent(before.content.value, e.env.read)
    ensures e.result.Err? && e.after == before
  {
    forall doc ensures !Writes(before, e.command, e.env, decode, doc) {
    }
  }
}
