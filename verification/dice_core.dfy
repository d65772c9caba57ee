/** What the two dice parsers of dice.py share: the allowed dice, the
    alphabet of a dice code, the result of a roll, the `add_return_var`
    decorator and the final sum of the die draws.

    A dice code reads like `7D12-5`: a count, a `D`, a face count and a
    signed modifier. A roll either yields an integer or an error message. */
module DiceCore {
  import opened PyStr

  /** The face counts a die may have, as the digit strings written after `D`. */
  const PossibleFaces: seq<string> := ["3", "4", "6", "8", "10", "12", "20", "100"]

  /** `POSSIBLE_DICES`: each allowed face count with a `D` in front. */
  const PossibleDices: seq<string> := ["D3", "D4", "D6", "D8", "D10", "D12", "D20", "D100"]

  /** Entry `k` of `POSSIBLE_DICES` is face count `k` behind a `D`; every face
      count is a non-empty digit run that does not start with `0`. */
  lemma PossibleDicesShape(k: nat)
    requires k < |PossibleFaces|
    ensures |PossibleDices| == |PossibleFaces|
    ensures PossibleDices[k] == "D" + PossibleFaces[k]
    ensures PossibleFaces[k] != [] && AllDigits(PossibleFaces[k]) && PossibleFaces[k][0] != '0'
  {
  }

  /** The face counts as numbers, in the same order. */
  const FaceCounts: seq<nat> := [3, 4, 6, 8, 10, 12, 20, 100]

  /** Reading face count `k` as a number gives `FaceCounts[k]`. */
  lemma FaceCountValue(k: nat)
    requires k < |PossibleFaces|
    ensures k < |FaceCounts| && DigitsValue(PossibleFaces[k]) == FaceCounts[k]
  {
    var f := PossibleFaces[k];
    assert DigitsValue(f[..|f| - 1]) == if |f| == 1 then 0 else if |f| == 2 then f[0] as int - '0' as int else 10;
  }

  /** A text of dice characters with no `D` and no sign is all digits. */
  lemma DigitsOnly(s: string)
    requires AllAllowed(s) && 'D' !in s && NoSign(s)
    ensures AllDigits(s)
  {
    forall i | 0 <= i < |s|
      ensures IsDigit(s[i])
    {
      assert IsDiceChar(s[i]) && s[i] != 'D' && !IsSign(s[i]);
    }
  }

  /** Past the only sign of a text there is no other sign. */
  lemma {:induction false} SignsAfterOnlySign(s: string)
    requires SignCount(s) <= 1 && FirstSign(s) < |s|
    ensures NoSign(s[FirstSign(s) + 1..])
  {
    var j := FirstSign(s);
    assert s == s[..j + 1] + s[j + 1..];
    OccurrencesAppend(s[..j + 1], s[j + 1..], '+');
    OccurrencesAppend(s[..j + 1], s[j + 1..], '-');
    assert s[j] in s[..j + 1];
  }

  /** Both halves of an allowed text are allowed. */
  lemma AllowedPieces(a: string, b: string)
    requires AllAllowed(a + b)
    ensures AllAllowed(a) && AllAllowed(b)
  {
    forall i | 0 <= i < |a|
      ensures IsDiceChar(a[i])
    {
      assert a[i] == (a + b)[i];
    }
    forall i | 0 <= i < |b|
      ensures IsDiceChar(b[i])
    {
      assert b[i] == (a + b)[|a| + i];
    }
  }

  lemma AllowedConcat(a: string, b: string)
    requires AllAllowed(a) && AllAllowed(b)
    ensures AllAllowed(a + b)
  {
  }

  /** An allowed text has no newline. */
  lemma AllowedNoNewline(s: string)
    requires AllAllowed(s)
    ensures '\n' !in s
  {
  }

  /** What a roll function hands back: the rolled total or an error message. */
  datatype Outcome = Roll(total: int) | Err(msg: string)

  /** A parse either gives the dice to roll or the error message. */
  datatype Result<T> = Ok(value: T) | Fail(msg: string)

  /** `count` dice with `faces` faces each, plus `modifier`. */
  datatype Dice = Dice(count: nat, faces: int, modifier: int)

  /** The characters a dice code may contain: ASCII digits, `D`, `+`, `-`. */
  predicate IsDiceChar(c: char) { IsDigit(c) || c == 'D' || IsSign(c) }

  predicate AllAllowed(s: string) { forall i :: 0 <= i < |s| ==> IsDiceChar(s[i]) }

  /** The position of the first character outside the alphabet, or `|code|`.
      Both parsers report the character found here before anything else. */
  function FirstNotAllowed(code: string): (i: nat)
    ensures i <= |code|
    ensures i < |code| ==> !IsDiceChar(code[i])
    ensures forall j :: 0 <= j < i ==> IsDiceChar(code[j])
  {
    if code == [] || !IsDiceChar(code[0]) then 0 else 1 + FirstNotAllowed(code[1..])
  }

  /** The number of `+` and `-` characters. */
  function SignCount(s: string): (n: nat)
    ensures n == 0 <==> NoSign(s)
  {
    Occurrences(s, '+') + Occurrences(s, '-')
  }

  /** The value a modifier text (empty, or a sign followed by digits) stands
      for; a sign with no digits after it counts as 0. */
  function ModifierValue(tail: string): int
  {
    if tail == [] then 0
    else if tail[0] == '-' then 0 - DigitsValue(tail[1..])
    else DigitsValue(tail[1..])
  }

  /** `add_return_var`: an error message gets ` [<argument>]` appended; a
      rolled total passes through unchanged. */
  function AddReturnVar(res: Outcome, arg: string): (r: Outcome)
    ensures r.Roll? <==> res.Roll?
    ensures res.Roll? ==> r == res
    ensures res.Err? ==> |r.msg| == |res.msg| + |arg| + 3
    ensures res.Err? ==> r.msg[..|res.msg|] == res.msg && r.msg[|res.msg|..] == " [" + arg + "]"
  {
    match res
    case Roll(_) => res
    case Err(m) => Err(m + " [" + arg + "]")
  }

  /** The decorator loses nothing: the undecorated result can be read back. */
  lemma AddReturnVarInjective(a: Outcome, b: Outcome, arg: string)
    requires AddReturnVar(a, arg) == AddReturnVar(b, arg)
    ensures a == b
  {
    if a.Err? {
      assert a.msg == AddReturnVar(a, arg).msg[..|a.msg|];
      assert |a.msg| == |b.msg|;
    }
  }

  /** A message of the alphabet check: `Not allowed char: ` and one character. */
  predicate CharMessage(m: string)
  {
    |m| == 19 && m[..18] == "Not allowed char: "
  }

  /** The alphabet message has that shape; the dice message has not. */
  lemma MessageShapes(c: char, s: string)
    ensures CharMessage("Not allowed char: " + [c])
    ensures !CharMessage("Not allowed dice: D" + s)
  {
    var m := "Not allowed dice: D" + s;
    if |m| == 19 {
      assert m[..18][12] == 'd';
    }
  }

  /** The dice message starts `No`, unlike the `Only one` and `Wrong` messages. */
  lemma DiceMessageStart(s: string)
    ensures var m := "Not allowed dice: D" + s; |m| >= 19 && m[0] == 'N' && m[1] == 'o' && m[2] == 't'
  {
  }

  /** The sum of the first `n` draws: `draw(i)` is what `randint` gave for die `i`. */
  function Sum(draw: nat -> int, n: nat): int
  {
    if n == 0 then 0 else Sum(draw, n - 1) + draw(n - 1)
  }

  /** With every draw in `[lo, hi]`, `n` draws sum to between `n * lo` and `n * hi`. */
  lemma {:induction false} SumBounds(draw: nat -> int, n: nat, lo: int, hi: int)
    requires forall i :: 0 <= i < n ==> lo <= draw(i) <= hi
    ensures n * lo <= Sum(draw, n) <= n * hi
  {
    if n > 0 {
      SumBounds(draw, n - 1, lo, hi);
      assert (n - 1) * lo + lo == n * lo;
      assert (n - 1) * hi + hi == n * hi;
    }
  }

  /** The last line of both parsers: an error passes through, parsed dice are
      rolled and the modifier added. */
  function Evaluate(p: Result<Dice>, draw: nat -> int): (r: Outcome)
    ensures p.Fail? ==> r == Err(p.msg)
    ensures p.Ok? ==> r.Roll?
    ensures p.Ok? && p.value.count == 0 ==> r == Roll(p.value.modifier)
  {
    match p
    case Fail(m) => Err(m)
    case Ok(d) => Roll(Sum(draw, d.count) + d.modifier)
  }

  /** A roll of dice with draws in `[1, faces]` lies between `count + modifier`
      and `count * faces + modifier`. */
  lemma RollWithinBounds(d: Dice, draw: nat -> int)
    requires forall i :: 0 <= i < d.count ==> 1 <= draw(i) <= d.faces
    ensures Evaluate(Ok(d), draw).Roll?
    ensures d.count + d.modifier <= Evaluate(Ok(d), draw).total <= d.count * d.faces + d.modifier
  {
    SumBounds(draw, d.count, 1, d.faces);
  }
}
