/**
  The command-line checks at the top of `main` in main.cpp: exactly one
  argument, the percentage at which the held key is released.
*/
module Arguments {
  import opened Wrappers

  /** How start-up ends: an exit status, or the accepted `endProgress`. */
  datatype Startup = Exit(code: int) | Accepted(endProgress: int)

  /**
    `argv` holds the program name and the arguments (`argc` is `|argv|`).
    `stoi` stands for `std::stoi`: `None` for every input on which it throws
    (no digits, or a value outside `int`).
  */
  function Validate(argv: seq<string>, stoi: string -> Option<int>): (r: Startup)
    ensures r.Exit? ==> r.code in {1, 2, 3}
    ensures r.Accepted? ==> |argv| >= 2 && stoi(argv[1]) == Some(r.endProgress) && 0 <= r.endProgress <= 99
  {
    if |argv| < 2 then Exit(1)
    else match stoi(argv[1])
      case None => Exit(2)
      case Some(n) => if n < 0 || n > 99 then Exit(3) else Accepted(n)
  }

  /** Each exit status has exactly one cause. */
  lemma ExitCodes(argv: seq<string>, stoi: string -> Option<int>)
    ensures Validate(argv, stoi) == Exit(1) <==> |argv| < 2
    ensures Validate(argv, stoi) == Exit(2) <==> |argv| >= 2 && stoi(argv[1]) == None
    ensures Validate(argv, stoi) == Exit(3) <==>
      |argv| >= 2 && stoi(argv[1]).Some? && (stoi(argv[1]).value < 0 || stoi(argv[1]).value > 99)
  {
  }

  /** Every percentage from 0 to 99 is accepted as it was parsed. */
  lemma AcceptsRange(argv: seq<string>, stoi: string -> Option<int>, t: int)
    requires |argv| >= 2 && stoi(argv[1]) == Some(t) && 0 <= t <= 99
    ensures Validate(argv, stoi) == Accepted(t)
  {
  }
}
