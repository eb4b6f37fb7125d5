/** The `dice` command of the Fun cog (bot/cogs/Fun.py): a die string such
    as "6d20" is split into a count and a number of faces, checked, rolled,
    and the rolls are answered either summed or written out. */
module FunDice {
  import opened Wrappers
  import opened PyText

  datatype DiceError =
    | BadDieString   // not two integers around one 'd': the ValueError of the unpacking or of `int`
    | TooSmall       // "Please choose a value above 0"
    | TooLarge       // "Please choose smaller values!"

  const MaxDice := 100
  const MaxFaces := 10000

  /** `dice, value = (int(term) for term in die_string.split("d"))`. */
  function ParseDie(dieString: string): (r: Result<(int, int), DiceError>)
    ensures r.Ok? ==> |Split(dieString, 'd')| == 2
    ensures |Split(dieString, 'd')| != 2 ==> r == Err(BadDieString)
  {
    var terms := Split(dieString, 'd');
    if |terms| != 2 then Err(BadDieString)
    else match (ParseInt(terms[0], 10), ParseInt(terms[1], 10))
      case (Some(dice), Some(value)) => Ok((dice, value))
      case _ => Err(BadDieString)
  }

  /** The two checks, the lower bound first. */
  function Validate(dice: int, value: int): (r: Option<DiceError>)
    ensures r.None? <==> 1 <= dice <= MaxDice && 1 <= value <= MaxFaces
    ensures r == Some(TooSmall) <==> dice <= 0 || value <= 0
  {
    if dice <= 0 || value <= 0 then Some(TooSmall)
    else if dice > MaxDice || value > MaxFaces then Some(TooLarge)
    else None
  }

  function Sum(rolls: seq<int>): int
    decreases |rolls|
  {
    if rolls == [] then 0 else Sum(rolls[..|rolls| - 1]) + rolls[|rolls| - 1]
  }

  function RollTexts(rolls: seq<int>): (r: seq<string>)
    ensures |r| == |rolls|
    ensures forall k :: 0 <= k < |rolls| ==> r[k] == IntToString(rolls[k])
  {
    seq(|rolls|, k requires 0 <= k < |rolls| => IntToString(rolls[k]))
  }

  /** The reply: the sum alone when `summed` is "yes" in any case, or else
      the rolls joined by " + ", then " = " and the sum. */
  function Response(rolls: seq<int>, summed: string): (reply: string)
    ensures var total := IntToString(Sum(rolls));
            |reply| >= |total| && reply[|reply| - |total|..] == total
  {
    if Lower(summed) == "yes" then IntToString(Sum(rolls))
    else Join(RollTexts(rolls), " + ") + " = " + IntToString(Sum(rolls))
  }

  /** A fair roll: `dice` results, each from 1 to `value`. */
  ghost predicate ValidRolls(rolls: seq<int>, dice: int, value: int) {
    |rolls| == dice && forall k :: 0 <= k < |rolls| ==> 1 <= rolls[k] <= value
  }

  /** `roll_dice_command`. The random choice of each roll is left open:
      any result from 1 to `value` may come out. */
  method RollDice(dieString: string, summed: string) returns (reply: Result<string, DiceError>, rolls: seq<int>)
    ensures ParseDie(dieString).Err? ==> reply == Err(BadDieString) && rolls == []
    ensures ParseDie(dieString).Ok? ==>
      var (dice, value) := ParseDie(dieString).value;
      match Validate(dice, value)
      case Some(e) => reply == Err(e) && rolls == []
      case None => ValidRolls(rolls, dice, value) && reply == Ok(Response(rolls, summed))
  {
    rolls := [];
    var parsed := ParseDie(dieString);
    if parsed.Err? {
      return Err(BadDieString), rolls;
    }
    var (dice, value) := parsed.value;
    var problem := Validate(dice, value);
    if problem.Some? {
      return Err(problem.value), rolls;
    }
    while |rolls| < dice
      invariant |rolls| <= dice
      invariant forall k :: 0 <= k < |rolls| ==> 1 <= rolls[k] <= value
      decreases dice - |rolls|
    {
      var roll :| 1 <= roll <= value;
      rolls := rolls + [roll];
    }
    reply := Ok(Response(rolls, summed));
  }

  // ---------------------------------------------------------------------
  // Properties
  // ---------------------------------------------------------------------

  /** The sum of fair rolls lies between `dice` and `dice * value`. */
  lemma {:induction false} SumBounds(rolls: seq<int>, value: int)
    requires forall k :: 0 <= k < |rolls| ==> 1 <= rolls[k] <= value
    ensures |rolls| <= Sum(rolls) <= |rolls| * value
    decreases |rolls|
  {
    if rolls != [] {
      SumBounds(rolls[..|rolls| - 1], value);
    }
  }

  /** Any count and face number written as "<count>d<faces>" are read
      back. */
  lemma DieStringRoundTrip(dice: int, value: int)
    ensures ParseDie(IntToString(dice) + "d" + IntToString(value)) == Ok((dice, value))
  {
    var a, b := IntToString(dice), IntToString(value);
    NoLetterD(dice);
    NoLetterD(value);
    assert a + "d" + b == a + ['d'] + b;
    SplitFirst(a, 'd', b);
    SplitWithout(b, 'd');
    IntToStringRoundTrip(dice);
    IntToStringRoundTrip(value);
  }

  /** `str(n)` holds no 'd'. */
  lemma NoLetterD(n: int)
    ensures 'd' !in IntToString(n)
  {
    var m: nat := if n < 0 then -n else n;
    var d := NatDigits(m, 10);
    forall i | 0 <= i < |d| ensures d[i] != 'd' {
      assert IsDigitIn(d[i], 10);
    }
    if n < 0 {
      assert IntToString(n) == "-" + d;
    }
  }

  /** A second 'd' makes the die string unreadable. */
  lemma TwoDsRejected(a: string, b: string, c: string)
    requires 'd' !in a && 'd' !in b
    ensures ParseDie(a + "d" + b + "d" + c) == Err(BadDieString)
  {
    assert a + "d" + b + "d" + c == a + ['d'] + (b + ['d'] + c);
    SplitFirst(a, 'd', b + ['d'] + c);
    SplitFirst(b, 'd', c);
  }

  /** The lower bound is checked first: no count at or below zero is ever
      reported as too large. */
  lemma NonPositiveIsTooSmall(dice: int, value: int)
    requires dice <= 0
    ensures Validate(dice, value) == Some(TooSmall)
  {
  }

  /** The summed reply reads back as the total, which lies within the
      bounds of the dice. */
  lemma SummedReplyIsTotal(rolls: seq<int>, dice: int, value: int)
    requires |rolls| == dice && forall k :: 0 <= k < |rolls| ==> 1 <= rolls[k] <= value
    ensures var total := ParseInt(Response(rolls, "yes"), 10);
            total.Some? && dice <= total.value <= dice * value
  {
    assert Lower("yes") == "yes";
    IntToStringRoundTrip(Sum(rolls));
    SumBounds(rolls, value);
  }

  /** The written-out reply ends with " = " and the total. */
  lemma WrittenOutEndsWithTotal(rolls: seq<int>, summed: string)
    requires Lower(summed) != "yes"
    ensures var r, t := Response(rolls, summed), " = " + IntToString(Sum(rolls));
            |t| <= |r| && r[|r| - |t|..] == t
  {
    ResponseWrittenOut(rolls, summed);
    SuffixOf(Response(rolls, summed), Join(RollTexts(rolls), " + "), " = " + IntToString(Sum(rolls)));
  }

  lemma ResponseWrittenOut(rolls: seq<int>, summed: string)
    requires Lower(summed) != "yes"
    ensures Response(rolls, summed) == Join(RollTexts(rolls), " + ") + (" = " + IntToString(Sum(rolls)))
  {
    Regroup(Join(RollTexts(rolls), " + "), " = ", IntToString(Sum(rolls)));
  }

  lemma Regroup(a: string, b: string, c: string)
    ensures a + b + c == a + (b + c)
  {
  }

  lemma SuffixOf(r: string, j: string, t: string)
    requires r == j + t
    ensures |t| <= |r| && r[|r| - |t|..] == t
  {
  }

  /** A single roll written out: "n = n". */
  lemma OneRollWrittenOut(roll: int)
    ensures Response([roll], "no") == IntToString(roll) + " = " + IntToString(roll)
  {
    assert Lower("no") == "no";
    assert [roll][..0] == [];
    assert Sum([roll]) == roll;
  }
}
