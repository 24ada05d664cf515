/** The command-line checks zfuzz makes before fuzzing: the target's argv
    must be non-empty and must contain the placeholder `@@`, whose first
    occurrence is replaced by the name of the file the fuzz input is written
    to. Strings are byte sequences (their UTF-8 encoding). */
module Config {
  import opened Common

  /** "fuzz_input". */
  const FUZZ_INPUT_STEM: seq<byte> := [0x66, 0x75, 0x7a, 0x7a, 0x5f, 0x69, 0x6e, 0x70, 0x75, 0x74]

  /** ".". */
  const DOT: byte := 0x2e

  /** "@@". */
  const PLACEHOLDER: seq<byte> := [0x40, 0x40]

  /** The fuzz-input file name: "fuzz_input", then "." and the extension if
      one is configured, then a NUL byte. */
  function FuzzInputName(extension: Option<seq<byte>>): (name: seq<byte>)
    ensures |name| >= 11 && name[..10] == FUZZ_INPUT_STEM && name[|name| - 1] == 0
    ensures extension.None? ==> name == FUZZ_INPUT_STEM + [0]
    ensures extension.Some? ==> name[10] == DOT && name[11..|name| - 1] == extension.value
  {
    FUZZ_INPUT_STEM + (if extension.Some? then [DOT] + extension.value else []) + [0]
  }

  /** Different extensions give different names, and when the extension has
      no NUL byte the name's only NUL is its terminator. */
  lemma {:induction false} FuzzInputNameProperties(e1: Option<seq<byte>>, e2: Option<seq<byte>>)
    ensures FuzzInputName(e1) == FuzzInputName(e2) ==> e1 == e2
    ensures (e1.Some? ==> forall i :: 0 <= i < |e1.value| ==> e1.value[i] != 0) ==>
      forall i :: 0 <= i < |FuzzInputName(e1)| - 1 ==> FuzzInputName(e1)[i] != 0
  {
    var n1, n2 := FuzzInputName(e1), FuzzInputName(e2);
    if n1 == n2 {
      assert |n1| == 11 <==> e1.None?;
      assert |n2| == 11 <==> e2.None?;
      if e1.Some? && e2.Some? {
        assert e1.value == n1[11..|n1| - 1] == e2.value;
      }
    }
    if e1.Some? {
      forall i | 0 <= i < |n1| - 1
        ensures (forall k :: 0 <= k < |e1.value| ==> e1.value[k] != 0) ==> n1[i] != 0
      {
        if i >= 11 {
          assert n1[i] == n1[11..|n1| - 1][i - 11];
        } else if i < 10 {
          assert n1[i] == n1[..10][i];
        }
      }
    } else {
      assert n1 == FUZZ_INPUT_STEM + [0];
    }
  }

  /** `iter().position(|e| e == "@@")`: the index of the first placeholder. */
  function Position(app: seq<seq<byte>>): (r: Option<nat>)
    ensures r.Some? ==> r.value < |app| && app[r.value] == PLACEHOLDER
    ensures r.Some? ==> forall i :: 0 <= i < r.value ==> app[i] != PLACEHOLDER
    ensures r.None? <==> forall i :: 0 <= i < |app| ==> app[i] != PLACEHOLDER
  {
    if |app| == 0 then None
    else if app[0] == PLACEHOLDER then Some(0)
    else
      var rest := Position(app[1..]);
      assert forall i :: 1 <= i < |app| ==> app[i] == app[1..][i - 1];
      if rest.None? then None else Some(rest.value + 1)
  }

  /** The parsed command line (the `clap` parser itself is not modelled). */
  class Cli {
    var debugPrint: bool
    var extension: Option<seq<byte>>
    var fuzzedApp: seq<seq<byte>>

    constructor (debugPrint: bool, extension: Option<seq<byte>>, fuzzedApp: seq<seq<byte>>)
      ensures this.debugPrint == debugPrint && this.extension == extension && this.fuzzedApp == fuzzedApp
    {
      this.debugPrint := debugPrint;
      this.extension := extension;
      this.fuzzedApp := fuzzedApp;
    }
  }

  /** `handle_cli`: exits when no target is given or its argv has no
      placeholder; otherwise replaces the first placeholder by the fuzz-input
      name, leaving every other argument in place, and returns that name
      (the value stored in the global `FUZZ_INPUT`). */
  method HandleCli(args: Cli) returns (r: Outcome<seq<byte>>)
    modifies args`fuzzedApp
    ensures old(args.fuzzedApp) == [] ==> r == Panic(MissingTarget)
    ensures old(args.fuzzedApp) != [] && Position(old(args.fuzzedApp)).None? ==> r == Panic(MissingPlaceholder)
    ensures old(args.fuzzedApp) != [] && Position(old(args.fuzzedApp)).Some? ==> r == Return(FuzzInputName(args.extension))
    ensures r.Panic? ==> args.fuzzedApp == old(args.fuzzedApp)
    ensures r.Return? ==> r.value == FuzzInputName(args.extension) && Position(old(args.fuzzedApp)).Some?
    ensures r.Return? ==>
      var idx := Position(old(args.fuzzedApp)).value;
      |args.fuzzedApp| == |old(args.fuzzedApp)| && args.fuzzedApp[idx] == r.value &&
      forall i :: 0 <= i < |args.fuzzedApp| && i != idx ==> args.fuzzedApp[i] == old(args.fuzzedApp)[i]
  {
    if args.fuzzedApp == [] {
      return Panic(MissingTarget);
    }
    var name := FuzzInputName(args.extension);
    var index := Position(args.fuzzedApp);
    if index.None? {
      return Panic(MissingPlaceholder);
    }
    args.fuzzedApp := args.fuzzedApp[index.value := name];
    r := Return(name);
  }
}
