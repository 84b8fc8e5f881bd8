/** The depth splitter: copies each line of an input file to one of two
    output files, depending on whether the number in its first column lies
    below a depth threshold. The file system is modelled by an existence
    test passed in as a parameter and by the output files' contents as
    sequences of lines; number parsing (`float` of the first
    whitespace-separated field) is a parameter that may fail. */
module SplitDepth {
  import opened Wrappers

  /** The command line once checked: threshold, input and output names. */
  datatype Config = Config(depth: real, inFile: string, outLow: string, outHigh: string)

  /** Why the script stops before writing anything. */
  datatype Refusal = WrongArgumentCount | BadDepth | OutputExists(name: string)

  datatype Checked = Refused(why: Refusal) | Ready(config: Config)

  /** The checks made before any file is opened: exactly four arguments
      (five entries with the script name), a numeric depth, and neither
      output file already present, tested in that order. */
  function CheckArguments(args: seq<string>, parseFloat: string -> Option<real>, fileExists: string -> bool): (r: Checked)
    ensures r.Ready? <==>
      |args| == 5 && parseFloat(args[1]).Some? && !fileExists(args[3]) && !fileExists(args[4])
    ensures r.Ready? ==>
      r.config == Config(parseFloat(args[1]).value, args[2], args[3], args[4])
    ensures r == Refused(WrongArgumentCount) <==> |args| != 5
    ensures r.Refused? && r.why.OutputExists? ==> fileExists(r.why.name)
  {
    if |args| != 5 then Refused(WrongArgumentCount)
    else match parseFloat(args[1])
      case None => Refused(BadDepth)
      case Some(depth) =>
        if fileExists(args[3]) then Refused(OutputExists(args[3]))
        else if fileExists(args[4]) then Refused(OutputExists(args[4]))
        else Ready(Config(depth, args[2], args[3], args[4]))
  }

  /** The number of leading lines whose first field parses: the loop
      stops with an exception at the first line that has none. */
  function ParsedPrefix(lines: seq<string>, depthOf: string -> Option<real>): (k: nat)
    ensures k <= |lines|
    ensures forall i :: 0 <= i < k ==> depthOf(lines[i]).Some?
    ensures k < |lines| ==> depthOf(lines[k]).None?
  {
    if lines == [] || depthOf(lines[0]).None? then 0
    else 1 + ParsedPrefix(lines[1..], depthOf)
  }

  /** The lines, among fully parsed ones, that go to the first file. */
  function Below(depth: real, lines: seq<string>, depthOf: string -> Option<real>): seq<string>
    requires forall i :: 0 <= i < |lines| ==> depthOf(lines[i]).Some?
  {
    if lines == [] then []
    else (if depthOf(lines[0]).value < depth then [lines[0]] else []) + Below(depth, lines[1..], depthOf)
  }

  /** The lines, among fully parsed ones, that go to the second file. */
  function AtOrAbove(depth: real, lines: seq<string>, depthOf: string -> Option<real>): seq<string>
    requires forall i :: 0 <= i < |lines| ==> depthOf(lines[i]).Some?
  {
    if lines == [] then []
    else (if depthOf(lines[0]).value < depth then [] else [lines[0]]) + AtOrAbove(depth, lines[1..], depthOf)
  }

  /** The routing loop: each line is appended, unchanged, to the first
      output when its depth is below the threshold and to the second
      otherwise; a line without a number ends the run (`aborted`), after
      the lines before it have been written. */
  method RouteLines(depth: real, lines: seq<string>, depthOf: string -> Option<real>)
    returns (low: seq<string>, high: seq<string>, aborted: bool)
    ensures var k := ParsedPrefix(lines, depthOf);
      && aborted == (k < |lines|)
      && low == Below(depth, lines[..k], depthOf)
      && high == AtOrAbove(depth, lines[..k], depthOf)
  {
    low, high, aborted := [], [], false;
    var i := 0;
    while i < |lines|
      invariant 0 <= i <= ParsedPrefix(lines, depthOf)
      invariant low == Below(depth, lines[..i], depthOf)
      invariant high == AtOrAbove(depth, lines[..i], depthOf)
    {
      match depthOf(lines[i])
      case None =>
        aborted := true;
        return;
      case Some(d) =>
        BelowAppend(depth, lines[..i], [lines[i]], depthOf);
        AtOrAboveAppend(depth, lines[..i], [lines[i]], depthOf);
        assert lines[..i + 1] == lines[..i] + [lines[i]];
        if d < depth {
          low := low + [lines[i]];
        } else {
          high := high + [lines[i]];
        }
        i := i + 1;
    }
  }

  /** Splitting the input splits each output the same way: the relative
      order of lines is kept. */
  lemma {:induction false} BelowAppend(depth: real, xs: seq<string>, ys: seq<string>, depthOf: string -> Option<real>)
    requires forall i :: 0 <= i < |xs| ==> depthOf(xs[i]).Some?
    requires forall i :: 0 <= i < |ys| ==> depthOf(ys[i]).Some?
    ensures Below(depth, xs + ys, depthOf) == Below(depth, xs, depthOf) + Below(depth, ys, depthOf)
  {
    if xs != [] {
      assert (xs + ys)[1..] == xs[1..] + ys;
      BelowAppend(depth, xs[1..], ys, depthOf);
    } else {
      assert xs + ys == ys;
    }
  }

  lemma {:induction false} AtOrAboveAppend(depth: real, xs: seq<string>, ys: seq<string>, depthOf: string -> Option<real>)
    requires forall i :: 0 <= i < |xs| ==> depthOf(xs[i]).Some?
    requires forall i :: 0 <= i < |ys| ==> depthOf(ys[i]).Some?
    ensures AtOrAbove(depth, xs + ys, depthOf) == AtOrAbove(depth, xs, depthOf) + AtOrAbove(depth, ys, depthOf)
  {
    if xs != [] {
      assert (xs + ys)[1..] == xs[1..] + ys;
      AtOrAboveAppend(depth, xs[1..], ys, depthOf);
    } else {
      assert xs + ys == ys;
    }
  }

  /** Every parsed line goes to exactly one output, unchanged: together
      the outputs hold the input lines, each as often as in the input;
      the first holds only lines below the threshold and the second only
      lines at or above it (equality included). */
  lemma {:induction false} RoutingPartitions(depth: real, lines: seq<string>, depthOf: string -> Option<real>)
    requires forall i :: 0 <= i < |lines| ==> depthOf(lines[i]).Some?
    ensures multiset(Below(depth, lines, depthOf)) + multiset(AtOrAbove(depth, lines, depthOf)) == multiset(lines)
    ensures forall l :: l in Below(depth, lines, depthOf) ==> depthOf(l).Some? && depthOf(l).value < depth
    ensures forall l :: l in AtOrAbove(depth, lines, depthOf) ==> depthOf(l).Some? && depthOf(l).value >= depth
  {
    if lines != [] {
      RoutingPartitions(depth, lines[1..], depthOf);
      assert lines == [lines[0]] + lines[1..];
    }
  }

  /** What a run leaves behind. */
  datatype Outcome =
    | Refusal(why: Refusal)
    | Finished(low: seq<string>, high: seq<string>, aborted: bool)

  /** The whole script over an input file's lines: argument checks first,
      and only when they pass are the outputs created and filled. */
  method Run(args: seq<string>, parseFloat: string -> Option<real>, fileExists: string -> bool,
             input: seq<string>, depthOf: string -> Option<real>) returns (r: Outcome)
    ensures CheckArguments(args, parseFloat, fileExists).Refused? ==>
      r == Refusal(CheckArguments(args, parseFloat, fileExists).why)
    ensures CheckArguments(args, parseFloat, fileExists).Ready? ==>
      var depth := CheckArguments(args, parseFloat, fileExists).config.depth;
      var k := ParsedPrefix(input, depthOf);
      r == Finished(Below(depth, input[..k], depthOf), AtOrAbove(depth, input[..k], depthOf), k < |input|)
  {
    var checked := CheckArguments(args, parseFloat, fileExists);
    match checked
    case Refused(why) =>
      r := Refusal(why);
    case Ready(config) =>
      var low, high, aborted := RouteLines(config.depth, input, depthOf);
      r := Finished(low, high, aborted);
  }

  /** An existing output file stops the script before anything is
      written, whichever of the two it is. */
  lemma NoOverwrite(args: seq<string>, parseFloat: string -> Option<real>, fileExists: string -> bool)
    requires |args| == 5 && (fileExists(args[3]) || fileExists(args[4]))
    ensures CheckArguments(args, parseFloat, fileExists).Refused?
  {
  }
}
