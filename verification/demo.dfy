/** The codes the `__main__` block of dice.py (lines 107-111) feeds to both
    roll functions, with the outcome each function gives, decoration
    included. `draw(i)` is what `randint` gives for die `i`; a code that
    rolls gives the sum of the first `count` draws plus the modifier. */
module DiceDemo {
  import opened PyStr
  import opened DiceCore
  import opened Scan
  import opened Regex
  import opened DiceNotation

  /** A notation with a listed face count rolls the same with both functions. */
  lemma {:induction false} BothRoll(n: Notation, code: string, d: Dice, draw: nat -> int)
    requires WellFormed(n) && n.faces in PossibleFaces && Render(n) == code && Meaning(n) == d
    ensures ScanOutcome(code, draw) == Roll(Sum(draw, d.count) + d.modifier)
    ensures RollTheDiceRe(code, draw) == Roll(Sum(draw, d.count) + d.modifier)
  {
    var k :| 0 <= k < |PossibleFaces| && PossibleFaces[k] == n.faces;
    assert HasFacePrefix(n.faces);
    ScanRollsAs(n, code, d, draw);
    ReRollsAs(n, code, d, draw);
  }

  /** A notation with dice the regular-expression parser accepts rolls them. */
  lemma {:induction false} ReRollsAs(n: Notation, code: string, d: Dice, draw: nat -> int)
    requires WellFormed(n) && n.faces in PossibleFaces && Render(n) == code && Meaning(n) == d
    ensures RollTheDiceRe(code, draw) == Roll(Sum(draw, d.count) + d.modifier)
  {
    ReRender(n);
    ReRolled(code, d, draw);
  }

  /** Dice the regular-expression parser reads come back rolled. */
  lemma ReRolled(code: string, d: Dice, draw: nat -> int)
    requires ReParse(code) == Ok(d)
    ensures RollTheDiceRe(code, draw) == Roll(Sum(draw, d.count) + d.modifier)
  {
  }

  /** Parsed dice come back rolled. */
  lemma ScanRolled(code: string, d: Dice, draw: nat -> int)
    requires ScanParse(code) == Ok(d)
    ensures ScanOutcome(code, draw) == Roll(Sum(draw, d.count) + d.modifier)
  {
  }

  /** `2D10+10`: two ten-sided dice plus 10. */
  lemma TwoD10Plus10(draw: nat -> int)
    ensures ScanOutcome("2D10+10", draw) == Roll(Sum(draw, 2) + 10)
    ensures RollTheDiceRe("2D10+10", draw) == Roll(Sum(draw, 2) + 10)
  {
    var n := Notation("2", "10", Signed('+', "10"));
    assert Render(n) == "2D10+10";
    assert PossibleFaces[4] == "10";
    assert Meaning(n) == Dice(2, 10, 10);
    BothRoll(n, "2D10+10", Dice(2, 10, 10), draw);
  }

  /** `D12-1`: one twelve-sided die minus 1. */
  lemma D12Minus1(draw: nat -> int)
    ensures ScanOutcome("D12-1", draw) == Roll(Sum(draw, 1) - 1)
    ensures RollTheDiceRe("D12-1", draw) == Roll(Sum(draw, 1) - 1)
  {
    var n := Notation("", "12", Signed('-', "1"));
    assert Render(n) == "D12-1";
    assert PossibleFaces[5] == "12";
    assert Meaning(n) == Dice(1, 12, -1);
    BothRoll(n, "D12-1", Dice(1, 12, -1), draw);
  }

  /** `32D3-`: a sign with nothing after it adds 0. */
  lemma ThirtyTwoD3Minus(draw: nat -> int)
    ensures ScanOutcome("32D3-", draw) == Roll(Sum(draw, 32))
    ensures RollTheDiceRe("32D3-", draw) == Roll(Sum(draw, 32))
  {
    assert PossibleFaces[0] == "3";
    BothRoll(Notation("32", "3", Signed('-', "")), "32D3-", Dice(32, 3, 0), draw);
  }

  /** A notation whose face digits do not start with an allowed face count
      gets the scanner's not-allowed message, decorated. */
  lemma {:induction false} ScanRejectsFaces(n: Notation, f: string, code: string, msg: string, draw: nat -> int)
    requires WellFormed(n) && n.faces == f && Render(n) == code && !HasFacePrefix(f)
    requires msg == "Not allowed dice: D" + f + " [" + code + "]"
    ensures ScanOutcome(code, draw) == Err(msg)
  {
    ScanRender(n);
  }

  /** A notation with face digits that are not an allowed face count gets
      the regular-expression parser's not-allowed message, decorated. */
  lemma {:induction false} ReRejectsFaces(n: Notation, f: string, code: string, msg: string, draw: nat -> int)
    requires WellFormed(n) && n.faces == f && Render(n) == code && f != [] && f !in PossibleFaces
    requires msg == "Not allowed dice: D" + f + "!" + " [" + code + "]"
    ensures RollTheDiceRe(code, draw) == Err(msg)
  {
    ReRender(n);
  }

  /** A notation with dice the scanner accepts rolls them. */
  lemma {:induction false} ScanRollsAs(n: Notation, code: string, d: Dice, draw: nat -> int)
    requires WellFormed(n) && HasFacePrefix(n.faces) && Render(n) == code && Meaning(n) == d
    ensures ScanOutcome(code, draw) == Roll(Sum(draw, d.count) + d.modifier)
  {
    ScanRender(n);
    ScanRolled(code, d, draw);
  }

  /** A one-digit face text starts with an allowed face count only if it is one. */
  lemma OneDigitFaces(c: char)
    ensures HasFacePrefix([c]) ==> [c] in PossibleFaces
  {
    if HasFacePrefix([c]) {
      var k :| 0 <= k < |PossibleFaces| && PossibleFaces[k] <= [c];
      PossibleDicesShape(k);
    }
  }

  /** `D30`: the scanner finds `D3` inside it and rolls thirty-sided dice. */
  lemma D30Scan(draw: nat -> int)
    ensures ScanOutcome("D30", draw) == Roll(Sum(draw, 1))
  {
    var n := Notation("", "30", NoModifier);
    assert PossibleFaces[0] <= "30";
    assert "30"[..1] == "3";
    ScanRollsAs(n, "D30", Dice(1, 30, 0), draw);
  }

  /** `D30`: the regular-expression parser wants the whole `30` to be listed. */
  lemma D30Re(draw: nat -> int)
    ensures RollTheDiceRe("D30", draw) == Err("Not allowed dice: D30! [D30]")
  {
    ReRejectsFaces(Notation("", "30", NoModifier), "30", "D30", "Not allowed dice: D30! [D30]", draw);
  }

  /** `7D7+7`: seven faces is not allowed. */
  lemma SevenD7Plus7Scan(draw: nat -> int)
    ensures ScanOutcome("7D7+7", draw) == Err("Not allowed dice: D7 [7D7+7]")
  {
    OneDigitFaces('7');
    ScanRejectsFaces(Notation("7", "7", Signed('+', "7")), "7", "7D7+7", "Not allowed dice: D7 [7D7+7]", draw);
  }

  /** `7D7+7`: the same rejection, with a `!` at the end of the message. */
  lemma SevenD7Plus7Re(draw: nat -> int)
    ensures RollTheDiceRe("7D7+7", draw) == Err("Not allowed dice: D7! [7D7+7]")
  {
    ReRejectsFaces(Notation("7", "7", Signed('+', "7")), "7", "7D7+7", "Not allowed dice: D7! [7D7+7]", draw);
  }

  /** Face digits that are empty start with no face count. */
  lemma NoFaces()
    ensures !HasFacePrefix([])
  {
    forall k | 0 <= k < |PossibleFaces|
      ensures !(PossibleFaces[k] <= [])
    {
      PossibleDicesShape(k);
    }
  }

  /** A notation with no face digits is `No dice specified!` to the
      regular-expression parser. */
  lemma {:induction false} ReNoFaces(n: Notation, code: string, msg: string, draw: nat -> int)
    requires WellFormed(n) && n.faces == [] && Render(n) == code
    requires msg == "No dice specified!" + " [" + code + "]"
    ensures RollTheDiceRe(code, draw) == Err(msg)
  {
    ReRender(n);
  }

  /** `3D`: the scanner reports empty face digits, the regular-expression
      parser reports no dice. */
  lemma ThreeDScan(draw: nat -> int)
    ensures ScanOutcome("3D", draw) == Err("Not allowed dice: D [3D]")
  {
    NoFaces();
    ScanRejectsFaces(Notation("3", "", NoModifier), "", "3D", "Not allowed dice: D [3D]", draw);
  }

  lemma ThreeDRe(draw: nat -> int)
    ensures RollTheDiceRe("3D", draw) == Err("No dice specified! [3D]")
  {
    ReNoFaces(Notation("3", "", NoModifier), "3D", "No dice specified! [3D]", draw);
  }

  /** `D-`: the same split; the scanner pads the trailing sign to `D-0` first. */
  lemma DMinusScan(draw: nat -> int)
    ensures ScanOutcome("D-", draw) == Err("Not allowed dice: D [D-]")
  {
    NoFaces();
    ScanRejectsFaces(Notation("", "", Signed('-', "")), "", "D-", "Not allowed dice: D [D-]", draw);
  }

  lemma DMinusRe(draw: nat -> int)
    ensures RollTheDiceRe("D-", draw) == Err("No dice specified! [D-]")
  {
    ReNoFaces(Notation("", "", Signed('-', "")), "D-", "No dice specified! [D-]", draw);
  }

  /** `D1`: one face is not allowed. */
  lemma DOneScan(draw: nat -> int)
    ensures ScanOutcome("D1", draw) == Err("Not allowed dice: D1 [D1]")
  {
    OneDigitFaces('1');
    ScanRejectsFaces(Notation("", "1", NoModifier), "1", "D1", "Not allowed dice: D1 [D1]", draw);
  }

  lemma DOneRe(draw: nat -> int)
    ensures RollTheDiceRe("D1", draw) == Err("Not allowed dice: D1! [D1]")
  {
    ReRejectsFaces(Notation("", "1", NoModifier), "1", "D1", "Not allowed dice: D1! [D1]", draw);
  }

  /** `DD34`: the scanner counts two `D`s; the regular-expression parser
      splits at the last one and rejects the faces first. */
  lemma DDThirtyFourScan(draw: nat -> int)
    ensures ScanOutcome("DD34", draw) == Err("Only one 'D' is allowed! [DD34]")
  {
    ScanTwoD("DD34", draw);
  }

  /** More than one `D` in an allowed code, decorated. */
  lemma ScanTwoD(code: string, draw: nat -> int)
    requires AllAllowed(code) && Occurrences(code, 'D') > 1
    ensures ScanOutcome(code, draw) == Err("Only one 'D' is allowed!" + " [" + code + "]")
  {
    assert FirstNotAllowed(code) == |code|;
  }

  lemma DDThirtyFourRe(draw: nat -> int)
    ensures RollTheDiceRe("DD34", draw) == Err("Not allowed dice: D34! [DD34]")
  {
    assert "DD34" == "D" + "D" + "34";
    ReUnlistedAfterLastD("D", "34", "DD34", "Not allowed dice: D34! [DD34]", draw);
  }

  /** Digits after the last `D` that are not an allowed face count are
      rejected before the text in front of that `D` is looked at. */
  lemma {:induction false} ReUnlistedAfterLastD(c: string, y: string, code: string, msg: string, draw: nat -> int)
    requires AllAllowed(c) && code == c + "D" + y && AllDigits(y) && y != [] && y !in PossibleFaces
    requires msg == "Not allowed dice: D" + y + "!" + " [" + code + "]"
    ensures RollTheDiceRe(code, draw) == Err(msg)
  {
    DigitsShape(y);
    AllowedConcat(c, "D");
    AllowedConcat(c + "D", y);
    AllowedNoNewline(code);
    AroundD(c, y);
    LastDAt(code, |c|, y);
    FirstLineUnique(code, code);
    assert GreedyMatch(code, c, y, "");
    SplitDiceCodeUnique(code, c, y, "");
    ReGroupsUnlisted(c, y, "");
    ReParseAllowed(code);
  }

  /** `4-3D7`: the search over `POSSIBLE_DICES` runs before the count is
      checked for a sign, so the unlisted `D7` is what gets reported. */
  lemma SignedCountUnlisted()
    ensures ScanParse("4-3D7") == Fail("Not allowed dice: D7")
  {
    SignedCountChecks();
    SignedCountTail();
    ScanUnlistedTail("4-3D7", "7");
  }

  /** `4-3D7` passes the alphabet, `D` and sign checks. */
  lemma SignedCountChecks()
    ensures AllAllowed("4-3D7") && Occurrences("4-3D7", 'D') == 1 && SignCount("4-3D7") <= 1
  {
  }

  /** `7` follows the `D` of `4-3D7`, and no allowed face count starts it. */
  lemma SignedCountTail()
    ensures AfterD("4-3D7") == "7" && !HasFacePrefix("7")
    ensures "Not allowed dice: D" + SignFreePrefix("7") == "Not allowed dice: D7"
  {
    var code := "4-3D7";
    assert code[3] == 'D' && 'D' !in code[..3];
    OneDigitFaces('7');
  }

  /** The scanner's not-allowed message for a code that passes the first
      three checks, given the text after its `D`. */
  lemma {:induction false} ScanUnlistedTail(code: string, rest: string)
    requires AllAllowed(code) && Occurrences(code, 'D') == 1 && SignCount(code) <= 1
    requires AfterD(code) == rest && !HasFacePrefix(rest)
    ensures ScanParse(code) == Fail("Not allowed dice: D" + SignFreePrefix(rest))
  {
    ScanNotListed(code);
  }

  /** A character outside the alphabet is what both functions report first. */
  lemma {:induction false} BothRejectChar(code: string, i: nat, msg: string, draw: nat -> int)
    requires i == FirstNotAllowed(code) && i < |code|
    requires msg == "Not allowed char: " + [code[i]] + " [" + code + "]"
    ensures ScanOutcome(code, draw) == Err(msg)
    ensures RollTheDiceRe(code, draw) == Err(msg)
  {
  }

  /** `2d8`: a lower-case `d` is not a dice character. */
  lemma TwoLowerD8(draw: nat -> int)
    ensures ScanOutcome("2d8", draw) == Err("Not allowed char: d [2d8]")
    ensures RollTheDiceRe("2d8", draw) == Err("Not allowed char: d [2d8]")
  {
    assert FirstNotAllowed("2d8") == 1 by {
      assert "2d8"[1..] == "d8";
    }
    BothRejectChar("2d8", 1, "Not allowed char: d [2d8]", draw);
  }

  /** The empty code: no dice, for both. */
  lemma EmptyCode(draw: nat -> int)
    ensures ScanOutcome("", draw) == Err("No dice specified! []")
    ensures RollTheDiceRe("", draw) == Err("No dice specified! []")
  {
  }
}
