/** The `is_equal` command: compares two numbers within a tolerance and
    reports the answer through its exit status. The tolerance test is
    `Angles.IsEqual`; `atof` is a parameter. */
module IsEqualTool {
  import opened Angles

  const EXIT_SUCCESS: int := 0
  const EXIT_FAILURE: int := 1

  /** The exit status for the argument vector `args` (program name
      first): failure unless there are exactly three arguments, then
      success exactly when `value1` is within `sigma` of `value2`. */
  function ExitStatus(args: seq<string>, atof: string -> real): (status: int)
    ensures status == EXIT_SUCCESS || status == EXIT_FAILURE
    ensures |args| != 4 ==> status == EXIT_FAILURE
  {
    if |args| != 4 then EXIT_FAILURE
    else if IsEqual(atof(args[1]), atof(args[2]), atof(args[3])) then EXIT_SUCCESS
    else EXIT_FAILURE
  }

  /** Success exactly when there are three arguments and the first value
      lies strictly inside the tolerance interval around the second. */
  lemma ExitStatusMeaning(args: seq<string>, atof: string -> real)
    ensures ExitStatus(args, atof) == EXIT_SUCCESS <==>
      |args| == 4 && atof(args[2]) - atof(args[3]) < atof(args[1]) < atof(args[2]) + atof(args[3])
  {
  }

  /** A tolerance that is not positive always fails, and the two values
      can be given in either order. */
  lemma ExitStatusProperties(prog: string, a: string, b: string, sigma: string, atof: string -> real)
    ensures atof(sigma) <= 0.0 ==> ExitStatus([prog, a, b, sigma], atof) == EXIT_FAILURE
    ensures ExitStatus([prog, a, b, sigma], atof) == ExitStatus([prog, b, a, sigma], atof)
  {
    IsEqualMeaning(atof(a), atof(b), atof(sigma));
  }
}
