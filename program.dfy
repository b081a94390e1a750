/**
 * The console front end: help detection, the prompts and their checks, the layer-strength
 * switch, and the dispatch to the engine for one file or for every file of a directory.
 * Console reads are a sequence of lines; a line past the end reads as null (None).
 */
module Cli {
  import opened Bytes
  import opened Results
  import opened Text
  import opened Numbers
  import opened FileStore
  import opened KeyGenerator
  import opened Encryptor

  datatype Mode = EncryptMode | DecryptMode

  /** Why the program stops before calling the engine; it prints an error line and returns. */
  datatype Failure = NoPath | PathNotFound | NoMode | InvalidMode | NoPassword

  /** What the prompts decide. */
  datatype Plan =
    | ShowHelp
    | Abort(reason: Failure)
    | EncryptPlan(path: string, password: string, saveKey: bool, useHWID: bool, layers: int32)
    | DecryptPlan(path: string, password: string)

  /** Console.ReadLine: the n-th line, or null once the input is exhausted. */
  function ReadLine(lines: seq<Option<string>>, n: nat): (r: Option<string>)
    ensures n < |lines| ==> r == lines[n]
    ensures n >= |lines| ==> r.None?
  {
    if n < |lines| then lines[n] else None
  }

  /** Help is asked for by the first argument, compared case-sensitively. */
  function WantsHelp(args: seq<string>): (r: bool)
    ensures r <==> |args| > 0 && args[0] in {"--help", "-h", "help", "/?"}
  {
    |args| > 0 && (args[0] == "--help" || args[0] == "-h" || args[0] == "help" || args[0] == "/?")
  }

  /** Only the first argument matters, and a differently cased spelling is not help. */
  lemma HelpIsExact(args: seq<string>, rest: seq<string>)
    ensures WantsHelp(["--help"] + rest) && WantsHelp(["/?"] + rest)
    ensures !WantsHelp(["--HELP"] + rest) && !WantsHelp(["Help"] + rest) && !WantsHelp([])
    ensures |args| > 0 ==> WantsHelp(args + rest) == WantsHelp(args)
  {
    if |args| > 0 {
      assert (args + rest)[0] == args[0];
    }
    assert "--HELP" != "--help" by { assert "--HELP"[2] != "--help"[2]; }
    assert "Help" != "help" by { assert "Help"[0] != "help"[0]; }
  }

  /** The path prompt: blank is refused, the path is trimmed, and it must exist as a file or a directory. */
  function ParsePath(input: Option<string>, pathExists: string -> bool): (r: Result<string, Failure>)
    ensures r == Err(NoPath) <==> IsNullOrWhiteSpace(input)
    ensures r == Err(PathNotFound) <==> !IsNullOrWhiteSpace(input) && !pathExists(Trim(input.value))
    ensures r.Ok? ==> input.Some? && r.value == Trim(input.value) && r.value != [] && pathExists(r.value)
  {
    if IsNullOrWhiteSpace(input) then Err(NoPath)
    else
      var path := Trim(input.value);
      TrimEmpty(input.value);
      if !pathExists(path) then Err(PathNotFound) else Ok(path)
  }

  /** The mode prompt: blank is NoMode; otherwise the trimmed, lower-cased answer must name a mode. */
  function ParseMode(input: Option<string>): (r: Result<Mode, Failure>)
    ensures r == Err(NoMode) <==> IsNullOrWhiteSpace(input)
    ensures r.Ok? <==> input.Some? && ToLower(Trim(input.value)) in {"encrypt", "decrypt"}
    ensures r == Ok(EncryptMode) <==> input.Some? && ToLower(Trim(input.value)) == "encrypt"
    ensures r == Ok(DecryptMode) <==> input.Some? && ToLower(Trim(input.value)) == "decrypt"
  {
    if input.None? then Err(NoMode)
    else if AllWhiteSpace(input.value) then
      TrimEmpty(input.value);
      Err(NoMode)
    else
      var mode := ToLower(Trim(input.value));
      if mode == "encrypt" then Ok(EncryptMode)
      else if mode == "decrypt" then Ok(DecryptMode)
      else Err(InvalidMode)
  }

  /** Surrounding white space and upper case are accepted in the mode answer. */
  lemma ModeIsLenient(pre: string, m: string, post: string)
    requires AllWhiteSpace(pre) && AllWhiteSpace(post)
    requires m != [] && !IsWhiteSpace(m[0]) && !IsWhiteSpace(m[|m| - 1])
    ensures ToLower(m) == "encrypt" ==> ParseMode(Some(pre + m + post)) == Ok(EncryptMode)
    ensures ToLower(m) == "decrypt" ==> ParseMode(Some(pre + m + post)) == Ok(DecryptMode)
  {
    TrimPadded(pre, m, post);
  }

  /** Upper- and mixed-case mode answers are accepted, with or without padding. */
  lemma ModeIgnoresCase()
    ensures ParseMode(Some("  ENCRYPT ")) == Ok(EncryptMode)
    ensures ParseMode(Some("Decrypt")) == Ok(DecryptMode)
  {
    UpperCaseEncrypt();
    MixedCaseDecrypt();
  }

  lemma UpperCaseEncrypt()
    ensures ParseMode(Some("  ENCRYPT ")) == Ok(EncryptMode)
  {
    var up := "ENCRYPT";
    LowersTo(up, "encrypt");
    assert "  ENCRYPT " == "  " + up + " ";
    ModeIsLenient("  ", up, " ");
  }

  lemma MixedCaseDecrypt()
    ensures ParseMode(Some("Decrypt")) == Ok(DecryptMode)
  {
    var mixed := "Decrypt";
    LowersTo(mixed, "decrypt");
    assert mixed == "" + mixed + "";
    ModeIsLenient("", mixed, "");
  }

  /** A mode answer that is a prefix of a mode name, or missing, is refused. */
  lemma ModeIsWhole()
    ensures ParseMode(Some("enc")) == Err(InvalidMode) && ParseMode(None) == Err(NoMode)
  {
    assert |ToLower(Trim("enc"))| <= 3;
  }

  /** The password prompt: blank is refused; otherwise the answer is the password as typed, untrimmed. */
  function ParsePassword(input: Option<string>): (r: Result<string, Failure>)
    ensures r.Err? <==> IsNullOrWhiteSpace(input)
    ensures r.Err? ==> r.error == NoPassword
    ensures r.Ok? ==> r.value == input.value && exists i | 0 <= i < |r.value| :: !IsWhiteSpace(r.value[i])
  {
    if IsNullOrWhiteSpace(input) then Err(NoPassword) else Ok(input.value)
  }

  /**
   * A yes/no prompt: the answer, lower-cased and untrimmed, must be "y"; null is no. So a flag
   * is set exactly by the answers "y" and "Y".
   */
  function YesFlag(input: Option<string>): (r: bool)
    ensures r <==> input == Some("y") || input == Some("Y")
  {
    if input.None? then false
    else LowersToY(input.value); ToLower(input.value) == "y"
  }

  /** The layer-strength prompt: null reads as "1", unparseable text as 1, then the switch. */
  function LayerCount(input: Option<string>): (r: int32)
    ensures r == 100 || r == 10_000 || r == 100_000
  {
    var choice: int32 :=
      match TryParseInt32(if input.Some? then input.value else "1")
      case None => 1
      case Some(n) => n;
    if choice == 1 then 100
    else if choice == 2 then 10_000
    else if choice == 3 then 100_000
    else 100
  }

  /** Choice 2 and choice 3 select 10 000 and 100 000 layers; everything else, null included, 100. */
  lemma LayerCountCases(input: Option<string>)
    ensures LayerCount(input) == 10_000 <==> input.Some? && TryParseInt32(input.value) == Some(2)
    ensures LayerCount(input) == 100_000 <==> input.Some? && TryParseInt32(input.value) == Some(3)
    ensures LayerCount(input) == 100 <==> input.None? || TryParseInt32(input.value) !in {Some(2), Some(3)}
  {
    if input.None? {
      ParseSmallChoices();
      assert LayerCount(input) == 100;
    }
  }

  /** An answer with text after the digit is not a choice, so it selects the default 100 layers. */
  lemma LayerCountRejectsTrailing()
    ensures LayerCount(Some("2x")) == 100
  {
    TryParseRejectsTrailing();
    LayerCountCases(Some("2x"));
  }

  /** The written-out choices 1, 2 and 3, with any white space around them, select 100, 10 000 and 100 000 layers. */
  lemma LayerChoiceMapping(pre: string, post: string)
    requires AllParseWhite(pre) && AllParseWhite(post)
    ensures LayerCount(Some(pre + "1" + post)) == 100
    ensures LayerCount(Some(pre + "2" + post)) == 10_000
    ensures LayerCount(Some(pre + "3" + post)) == 100_000
    ensures LayerCount(None) == 100
  {
    FormatSmall();
    ParseFormat(1, pre, post);
    ParseFormat(2, pre, post);
    ParseFormat(3, pre, post);
    LayerCountCases(None);
  }

  /** The first three answers pass their checks. */
  predicate Accepted(lines: seq<Option<string>>, pathExists: string -> bool) {
    ParsePath(ReadLine(lines, 0), pathExists).Ok? && ParseMode(ReadLine(lines, 1)).Ok? && ParsePassword(ReadLine(lines, 2)).Ok?
  }

  /**
   * The prompts in order: path, mode, password, then for encryption the two flags and the
   * strength. Without help, an engine call is planned exactly when the first three answers pass;
   * otherwise the program stops at the first answer that fails, with that answer's reason.
   */
  function Interpret(args: seq<string>, lines: seq<Option<string>>, pathExists: string -> bool): (plan: Plan)
    ensures plan == ShowHelp <==> WantsHelp(args)
    ensures plan.EncryptPlan? <==> !WantsHelp(args) && Accepted(lines, pathExists) && ParseMode(ReadLine(lines, 1)) == Ok(EncryptMode)
    ensures plan.DecryptPlan? <==> !WantsHelp(args) && Accepted(lines, pathExists) && ParseMode(ReadLine(lines, 1)) == Ok(DecryptMode)
    ensures plan.Abort? <==> !WantsHelp(args) && !Accepted(lines, pathExists)
    ensures plan.Abort? && ParsePath(ReadLine(lines, 0), pathExists).Err? ==>
      plan.reason == ParsePath(ReadLine(lines, 0), pathExists).error
    ensures plan.Abort? && ParsePath(ReadLine(lines, 0), pathExists).Ok? && ParseMode(ReadLine(lines, 1)).Err? ==>
      plan.reason == ParseMode(ReadLine(lines, 1)).error
    ensures plan.Abort? && ParsePath(ReadLine(lines, 0), pathExists).Ok? && ParseMode(ReadLine(lines, 1)).Ok? ==>
      plan.reason == NoPassword
    ensures plan.EncryptPlan? || plan.DecryptPlan? ==>
      && ReadLine(lines, 0).Some? && plan.path == Trim(ReadLine(lines, 0).value) && pathExists(plan.path)
      && !IsNullOrWhiteSpace(ReadLine(lines, 2)) && plan.password == ReadLine(lines, 2).value
    ensures plan.EncryptPlan? ==>
      && ParseMode(ReadLine(lines, 1)) == Ok(EncryptMode)
      && (plan.saveKey <==> ReadLine(lines, 3) in {Some("y"), Some("Y")})
      && (plan.useHWID <==> ReadLine(lines, 4) in {Some("y"), Some("Y")})
      && plan.layers == LayerCount(ReadLine(lines, 5)) && plan.layers in {100, 10_000, 100_000}
    ensures plan.DecryptPlan? ==> ParseMode(ReadLine(lines, 1)) == Ok(DecryptMode)
    ensures plan == Abort(NoPath) <==> !WantsHelp(args) && IsNullOrWhiteSpace(ReadLine(lines, 0))
  {
    if WantsHelp(args) then ShowHelp
    else
      match ParsePath(ReadLine(lines, 0), pathExists)
      case Err(e) => Abort(e)
      case Ok(path) =>
        match ParseMode(ReadLine(lines, 1))
        case Err(e) => Abort(e)
        case Ok(mode) =>
          match ParsePassword(ReadLine(lines, 2))
          case Err(e) => Abort(e)
          case Ok(password) =>
            if mode == EncryptMode then
              EncryptPlan(path, password, YesFlag(ReadLine(lines, 3)), YesFlag(ReadLine(lines, 4)),
                          LayerCount(ReadLine(lines, 5)))
            else DecryptPlan(path, password)
  }

  /**
   * The encrypt loop over a file list: EncryptFile on each file in turn, each with its own
   * random material; the first failure propagates and ends the run.
   */
  function EncryptEach(files: map<string, seq<byte>>, platform: Platform, targets: seq<string>, password: string,
                       saveKey: bool, layers: int32, materials: seq<KeyMaterial>): (r: (map<string, seq<byte>>, Result<(), Error>))
    requires |materials| == |targets|
    ensures files.Keys <= r.0.Keys
    ensures r.1.Err? ==> r.1.error == FileNotFound
    decreases |targets|
  {
    if targets == [] then (files, Ok(()))
    else
      var (after, r) := EncryptOutcome(files, platform, targets[0], password, saveKey, layers, materials[0]);
      if r.Err? then (after, r)
      else EncryptEach(after, platform, targets[1..], password, saveKey, layers, materials[1..])
  }

  /** The names the decrypt loop hands to DecryptFile: those ending in ".xenc", in order. */
  function Ciphertexts(targets: seq<string>): (r: seq<string>)
    ensures forall t :: t in r <==> t in targets && EndsWith(t, ".xenc")
    ensures |r| <= |targets|
  {
    if targets == [] then []
    else if EndsWith(targets[0], ".xenc") then [targets[0]] + Ciphertexts(targets[1..])
    else Ciphertexts(targets[1..])
  }

  /** The filter keeps listing order: it distributes over concatenation, name by name. */
  lemma {:induction false} CiphertextsAppend(a: seq<string>, b: seq<string>)
    ensures Ciphertexts(a + b) == Ciphertexts(a) + Ciphertexts(b)
    ensures |a| == 1 ==> Ciphertexts(a) == if EndsWith(a[0], ".xenc") then a else []
    decreases |a|
  {
    if a != [] {
      assert (a + b)[0] == a[0] && (a + b)[1..] == a[1..] + b;
      CiphertextsAppend(a[1..], b);
    } else {
      assert a + b == b;
    }
  }

  /** DecryptFile on each name in turn; the first failure propagates and ends the run. */
  function DecryptSequence(files: map<string, seq<byte>>, platform: Platform, targets: seq<string>, password: string)
    : (r: (map<string, seq<byte>>, Result<(), Error>))
    ensures files.Keys <= r.0.Keys
    decreases |targets|
  {
    if targets == [] then (files, Ok(()))
    else
      var (after, r) := DecryptOutcome(files, platform, targets[0], password);
      if r.Err? then (after, r) else DecryptSequence(after, platform, targets[1..], password)
  }

  /** The decrypt loop over a file list as written: names not ending in ".xenc" are skipped. */
  function DecryptEach(files: map<string, seq<byte>>, platform: Platform, targets: seq<string>, password: string)
    : (r: (map<string, seq<byte>>, Result<(), Error>))
    ensures files.Keys <= r.0.Keys
    decreases |targets|
  {
    if targets == [] then (files, Ok(()))
    else if !EndsWith(targets[0], ".xenc") then DecryptEach(files, platform, targets[1..], password)
    else
      var (after, r) := DecryptOutcome(files, platform, targets[0], password);
      if r.Err? then (after, r) else DecryptEach(after, platform, targets[1..], password)
  }

  /** The decrypt loop calls DecryptFile on exactly the ".xenc" names, in order, and on nothing else. */
  lemma {:induction false} DecryptEachFilters(files: map<string, seq<byte>>, platform: Platform, targets: seq<string>,
                                              password: string)
    ensures DecryptEach(files, platform, targets, password) == DecryptSequence(files, platform, Ciphertexts(targets), password)
    decreases |targets|
  {
    if targets != [] {
      var rest := targets[1..];
      if EndsWith(targets[0], ".xenc") {
        var after := DecryptOutcome(files, platform, targets[0], password).0;
        assert ([targets[0]] + Ciphertexts(rest))[1..] == Ciphertexts(rest);
        DecryptEachFilters(after, platform, rest, password);
      } else {
        DecryptEachFilters(files, platform, rest, password);
      }
    }
  }

  /** A directory holding no ".xenc" name is left untouched by the decrypt loop. */
  lemma {:induction false} NoCiphertextsNoChange(files: map<string, seq<byte>>, platform: Platform, targets: seq<string>,
                                                 password: string)
    requires forall t :: t in targets ==> !EndsWith(t, ".xenc")
    ensures DecryptEach(files, platform, targets, password) == (files, Ok(()))
    decreases |targets|
  {
    if targets != [] {
      assert targets[0] in targets;
      assert forall t :: t in targets[1..] ==> t in targets;
      NoCiphertextsNoChange(files, platform, targets[1..], password);
    }
  }

  /**
   * Over a listing of existing files the encrypt loop succeeds, keeps every path that was there,
   * and leaves a ciphertext for every file in the list.
   */
  lemma {:induction false} EncryptEachCovers(files: map<string, seq<byte>>, platform: Platform, targets: seq<string>,
                                             password: string, saveKey: bool, layers: int32, materials: seq<KeyMaterial>)
    requires HonorsHashLength(platform.argon2)
    requires |materials| == |targets| && forall i :: 0 <= i < |materials| ==> WellSizedMaterial(materials[i])
    requires forall t :: t in targets ==> t in files
    ensures var (after, r) := EncryptEach(files, platform, targets, password, saveKey, layers, materials);
      && r == Ok(())
      && files.Keys <= after.Keys
      && forall t :: t in targets ==> CiphertextPath(t) in after
    decreases |targets|
  {
    if targets != [] {
      var (after, r) := EncryptOutcome(files, platform, targets[0], password, saveKey, layers, materials[0]);
      EncryptEffects(files, platform, targets[0], password, saveKey, layers, materials[0]);
      assert files.Keys <= after.Keys;
      assert forall i :: 0 <= i < |materials[1..]| ==> WellSizedMaterial(materials[1..][i]) by {
        forall i | 0 <= i < |materials[1..]| ensures WellSizedMaterial(materials[1..][i]) {
          assert materials[1..][i] == materials[i + 1];
        }
      }
      EncryptEachCovers(after, platform, targets[1..], password, saveKey, layers, materials[1..]);
      assert forall t :: t in targets ==> t == targets[0] || t in targets[1..];
    }
  }

  /**
   * When the decrypt loop succeeds it has written the ".xdec" file of every ".xenc" name in the
   * list and removed nothing.
   */
  lemma {:induction false} DecryptEachCovers(files: map<string, seq<byte>>, platform: Platform, targets: seq<string>,
                                             password: string)
    requires DecryptEach(files, platform, targets, password).1.Ok?
    ensures var after := DecryptEach(files, platform, targets, password).0;
      && files.Keys <= after.Keys
      && forall t :: t in targets && EndsWith(t, ".xenc") ==> DecryptedPath(OriginalPath(t)) in after
    decreases |targets|
  {
    if targets != [] {
      if EndsWith(targets[0], ".xenc") {
        var after := DecryptOutcome(files, platform, targets[0], password).0;
        DecryptEffects(files, platform, targets[0], password);
        DecryptEachCovers(after, platform, targets[1..], password);
      } else {
        DecryptEachCovers(files, platform, targets[1..], password);
      }
      assert forall t :: t in targets ==> t == targets[0] || t in targets[1..];
    }
  }

  /** The foreach over the directory listing with EncryptFile. */
  method EncryptAll(disk: Disk, platform: Platform, targets: seq<string>, password: string, saveKey: bool,
                    useHWID: bool, layers: int32, materials: seq<KeyMaterial>) returns (r: Result<(), Error>)
    requires |materials| == |targets| && forall i :: 0 <= i < |materials| ==> WellSizedMaterial(materials[i])
    modifies disk
    ensures (disk.files, r) == EncryptEach(old(disk.files), platform, targets, password, saveKey, layers, materials)
  {
    var i := 0;
    while i < |targets|
      invariant 0 <= i <= |targets|
      invariant EncryptEach(disk.files, platform, targets[i..], password, saveKey, layers, materials[i..])
                == EncryptEach(old(disk.files), platform, targets, password, saveKey, layers, materials)
    {
      assert targets[i..][1..] == targets[i + 1..] && materials[i..][1..] == materials[i + 1..];
      r := EncryptFile(disk, platform, targets[i], password, saveKey, useHWID, layers, materials[i]);
      if r.Err? {
        return;
      }
      i := i + 1;
    }
    r := Ok(());
  }

  /** The foreach over the directory listing with the ".xenc" filter and DecryptFile. */
  method DecryptAll(disk: Disk, platform: Platform, targets: seq<string>, password: string) returns (r: Result<(), Error>)
    modifies disk
    ensures (disk.files, r) == DecryptEach(old(disk.files), platform, targets, password)
  {
    var i := 0;
    while i < |targets|
      invariant 0 <= i <= |targets|
      invariant DecryptEach(disk.files, platform, targets[i..], password)
                == DecryptEach(old(disk.files), platform, targets, password)
    {
      assert targets[i..][1..] == targets[i + 1..];
      if EndsWith(targets[i], ".xenc") {
        r := DecryptFile(disk, platform, targets[i], password);
        if r.Err? {
          return;
        }
      }
      i := i + 1;
    }
    r := Ok(());
  }

  /**
   * What the program does with a plan: nothing for help or an early stop; for a directory the
   * loop over its listing, for a file one call. Each encryption draws the next material.
   */
  function Outcome(files: map<string, seq<byte>>, platform: Platform, plan: Plan, isDirectory: bool,
                   listing: seq<string>, random: nat -> KeyMaterial): (r: (map<string, seq<byte>>, Result<(), Error>))
    ensures files.Keys <= r.0.Keys
    ensures plan.ShowHelp? || plan.Abort? ==> r == (files, Ok(()))
  {
    match plan
    case ShowHelp => (files, Ok(()))
    case Abort(_) => (files, Ok(()))
    case EncryptPlan(path, password, saveKey, _, layers) =>
      var targets := if isDirectory then listing else [path];
      EncryptEach(files, platform, targets, password, saveKey, layers, seq(|targets|, (i: int) requires 0 <= i => random(i)))
    case DecryptPlan(path, password) =>
      if isDirectory then DecryptEach(files, platform, listing, password)
      else DecryptOutcome(files, platform, path, password)
  }

  /** Help and a refused prompt leave the file store as it was. */
  lemma StopsChangeNothing(files: map<string, seq<byte>>, platform: Platform, args: seq<string>,
                           lines: seq<Option<string>>, pathExists: string -> bool, isDirectory: bool,
                           listing: seq<string>, random: nat -> KeyMaterial)
    requires Interpret(args, lines, pathExists).ShowHelp? || Interpret(args, lines, pathExists).Abort?
    ensures Outcome(files, platform, Interpret(args, lines, pathExists), isDirectory, listing, random) == (files, Ok(()))
  {
  }

  /** The program after the prompts: the dispatch on the plan and on whether the path is a directory. */
  method Execute(disk: Disk, platform: Platform, plan: Plan, isDirectory: bool, listing: seq<string>,
                 random: nat -> KeyMaterial) returns (r: Result<(), Error>)
    requires forall n: nat :: WellSizedMaterial(random(n))
    modifies disk
    ensures (disk.files, r) == Outcome(old(disk.files), platform, plan, isDirectory, listing, random)
  {
    match plan
    case ShowHelp =>
      r := Ok(());
    case Abort(_) =>
      r := Ok(());
    case EncryptPlan(path, password, saveKey, useHWID, layers) =>
      var targets := if isDirectory then listing else [path];
      r := EncryptAll(disk, platform, targets, password, saveKey, useHWID, layers, seq(|targets|, (i: int) requires 0 <= i => random(i)));
    case DecryptPlan(path, password) =>
      if isDirectory {
        r := DecryptAll(disk, platform, listing, password);
      } else {
        r := DecryptFile(disk, platform, path, password);
      }
  }
}
