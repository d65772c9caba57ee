/** `split_dice_code` and `roll_the_dice_re` (dice.py:58-103): the parser
    built on the regular expression `(.*)D([^\+\-]*)([\+\-]?.*)`.

    The regular expression is not run here; `GreedyMatch` states what a
    match of it at the start of the code is (`.` stops at a newline, both
    stars take as much as they can), and `SplitDiceCode` is proved to give
    the one and only such match. */
module Regex {
  import opened PyStr
  import opened DiceCore

  /** The text `.*` can cover from the start of `s`: everything up to the
      first newline. */
  function FirstLine(s: string): (r: string)
    ensures r <= s && '\n' !in r
    ensures |r| < |s| ==> s[|r|] == '\n'
  {
    s[..IndexOf(s, '\n')]
  }

  /** A newline-free prefix that stops at a newline or at the end is the first line. */
  lemma FirstLineUnique(r: string, s: string)
    requires r <= s && '\n' !in r && (|r| < |s| ==> s[|r|] == '\n')
    ensures r == FirstLine(s)
  {
  }

  /** Position `i` holds the last `D` of the first line of `code`. */
  predicate LastDOfFirstLine(code: string, i: nat)
  {
    i < |FirstLine(code)| && code[i] == 'D' &&
    forall j :: i < j < |FirstLine(code)| ==> code[j] != 'D'
  }

  /** `y` is the longest run without a sign starting at position `i`. */
  predicate SignFreeRunAt(code: string, i: nat, y: string)
  {
    i <= |code| && y <= code[i..] && NoSign(y) && (i + |y| < |code| ==> IsSign(code[i + |y|]))
  }

  /** `z` is what `[\+\-]?.*` takes at position `i`, where a sign or the end
      of the code stands: nothing at the end, else the sign and the rest of
      its line. */
  predicate SignedLineAt(code: string, i: nat, z: string)
  {
    i <= |code| && z <= code[i..] &&
    (z == [] <==> i == |code|) &&
    (z != [] ==> IsSign(z[0]) && '\n' !in z[1..] && (i + |z| < |code| ==> code[i + |z|] == '\n'))
  }

  /** `x`, `y` and `z` are the three groups of a match of
      `(.*)D([^\+\-]*)([\+\-]?.*)` at the start of `code`: `x` runs up to the
      last `D` of the first line (the greedy `(.*)`, which cannot cross a
      newline), `y` is the longest sign-free run after that `D`, and `z` is
      the sign that follows it, if any, with the rest of that line. */
  predicate GreedyMatch(code: string, x: string, y: string, z: string)
  {
    x <= code && LastDOfFirstLine(code, |x|) &&
    SignFreeRunAt(code, |x| + 1, y) && SignedLineAt(code, |x| + 1 + |y|, z)
  }

  /** The `[\+\-]?.*` group on a text that is empty or starts with a sign. */
  function SignedLine(s: string): string
  {
    if s == [] then [] else [s[0]] + FirstLine(s[1..])
  }

  /** `split_dice_code`: the three groups of the match, or three empty
      strings for the empty code and for a code whose first line has no `D`
      (where `match` gives `None` and `.group` raises `AttributeError`). */
  function SplitDiceCode(code: string): (r: (string, string, string))
    ensures 'D' !in FirstLine(code) ==> r == ("", "", "")
    ensures 'D' in FirstLine(code) ==> GreedyMatch(code, r.0, r.1, r.2)
  {
    if code == [] then ("", "", "")
    else
      var d := LastIndexOf(FirstLine(code), 'D');
      if d < 0 then ("", "", "") else GroupsAround(code, d)
  }

  /** The three groups around the `D` at position `d`. */
  function GroupsAround(code: string, d: nat): (r: (string, string, string))
    requires d < |code|
    ensures r.0 == code[..d]
    ensures SignFreeRunAt(code, d + 1, r.1) && SignedLineAt(code, d + 1 + |r.1|, r.2)
  {
    var y := SignFreePrefix(code[d + 1..]);
    SignFreeRunFound(code, d + 1);
    SignedLineFound(code, d + 1 + |y|);
    (code[..d], y, SignedLine(code[d + 1 + |y|..]))
  }

  lemma SignFreeRunFound(code: string, i: nat)
    requires i <= |code|
    ensures SignFreeRunAt(code, i, SignFreePrefix(code[i..]))
  {
  }

  lemma {:induction false} SignedLineFound(code: string, i: nat)
    requires i <= |code| && (i < |code| ==> IsSign(code[i]))
    ensures SignedLineAt(code, i, SignedLine(code[i..]))
  {
    var s := code[i..];
    if s != [] {
      var z := SignedLine(s);
      assert z[1..] == FirstLine(s[1..]);
      if i + |z| < |code| {
        assert code[i + |z|] == s[1..][|z| - 1];
      }
    }
  }

  /** The match is unique: any three groups the pattern can match are the
      ones `split_dice_code` returns. */
  lemma {:induction false} SplitDiceCodeUnique(code: string, x: string, y: string, z: string)
    requires GreedyMatch(code, x, y, z)
    ensures SplitDiceCode(code) == (x, y, z)
  {
    LastDUnique(code, |x|);
    assert SplitDiceCode(code) == GroupsAround(code, |x|);
    GroupsUnique(code, |x|, y, z);
    assert x == code[..|x|];
  }

  /** The last `D` of the first line is the one `LastIndexOf` finds. */
  lemma LastDUnique(code: string, i: nat)
    requires LastDOfFirstLine(code, i)
    ensures code != [] && LastIndexOf(FirstLine(code), 'D') == i
  {
    var line := FirstLine(code);
    assert line[i] == 'D';
  }

  /** The groups after the `D` at `d` are the only ones the pattern allows. */
  lemma {:induction false} GroupsUnique(code: string, d: nat, y: string, z: string)
    requires d < |code| && SignFreeRunAt(code, d + 1, y) && SignedLineAt(code, d + 1 + |y|, z)
    ensures GroupsAround(code, d) == (code[..d], y, z)
  {
    var r := GroupsAround(code, d);
    RunSame(code, d + 1, y, r.1);
    LineSame(code, d + 1 + |y|, z, r.2);
  }

  /** The sign-free run at a position is unique. */
  lemma RunSame(code: string, i: nat, y: string, y2: string)
    requires SignFreeRunAt(code, i, y) && SignFreeRunAt(code, i, y2)
    ensures y == y2
  {
    SignFreePrefixUnique(y, code[i..]);
    SignFreePrefixUnique(y2, code[i..]);
  }

  /** The signed group at a position is unique. */
  lemma LineSame(code: string, i: nat, z: string, z2: string)
    requires SignedLineAt(code, i, z) && SignedLineAt(code, i, z2)
    ensures z == z2
  {
    SignedLineUnique(code, i, z);
    SignedLineUnique(code, i, z2);
  }

  lemma {:induction false} SignedLineUnique(code: string, i: nat, z: string)
    requires SignedLineAt(code, i, z)
    ensures z == SignedLine(code[i..])
  {
    var s := code[i..];
    if z != [] {
      assert z[1..] <= s[1..];
      FirstLineUnique(z[1..], s[1..]);
      assert z == [s[0]] + z[1..];
    }
  }

  /** A code without newlines and with a `D` splits into the three groups
      around its last `D`, and nothing is left over. */
  lemma {:induction false} SplitDiceCodeWhole(code: string)
    requires '\n' !in code && 'D' in code
    ensures var (x, y, z) := SplitDiceCode(code);
      x + "D" + y + z == code && 'D' !in y && 'D' !in z
  {
    FirstLineUnique(code, code);
    var (x, y, z) := SplitDiceCode(code);
    ConcatPrefix(code, x, y, z);
    NoDAfter(code, |x|, y, |x| + 1);
    NoDAfter(code, |x|, z, |x| + 1 + |y|);
  }

  /** A piece lying past the last `D` holds no `D`. */
  lemma NoDAfter(code: string, d: nat, s: string, off: nat)
    requires forall j :: d < j < |code| ==> code[j] != 'D'
    requires d < off <= |code| && s <= code[off..]
    ensures 'D' !in s
  {
    forall j | 0 <= j < |s|
      ensures s[j] != 'D'
    {
      assert s[j] == code[off..][j] == code[off + j];
    }
  }

  /** Four pieces laid end to end at the start of `code`. */
  lemma ConcatPrefix(code: string, x: string, y: string, z: string)
    requires x <= code && |x| < |code| && code[|x|] == 'D'
    requires y <= code[|x| + 1..] && z <= code[|x| + 1 + |y|..]
    ensures x + "D" + y + z <= code
  {
    var w := x + "D" + y + z;
    forall j | 0 <= j < |w|
      ensures w[j] == code[j]
    {
      if j < |x| {
      } else if j == |x| {
      } else if j < |x| + 1 + |y| {
        assert w[j] == y[j - |x| - 1] == code[|x| + 1..][j - |x| - 1];
      } else {
        assert w[j] == z[j - |x| - 1 - |y|] == code[|x| + 1 + |y|..][j - |x| - 1 - |y|];
      }
    }
  }

  /** What `roll_the_dice_re` decides about `code`, check by check. */
  function ReParse(code: string): (r: Result<Dice>)
    ensures r.Ok? ==> AllAllowed(code)
    ensures r.Ok? ==> exists k :: 0 <= k < |FaceCounts| && r.value.faces == FaceCounts[k]
  {
    var bad := FirstNotAllowed(code);
    if bad < |code| then Fail("Not allowed char: " + [code[bad]])
    else
      var (x, y, z) := SplitDiceCode(code);
      ReGroups(x, y, z)
  }

  /** dice.py:82-103: the checks on the three groups and the dice they give. */
  function ReGroups(x: string, y: string, z: string): (r: Result<Dice>)
    ensures r.Ok? ==> exists k :: 0 <= k < |FaceCounts| && r.value.faces == FaceCounts[k]
  {
    if y == [] then Fail("No dice specified!")
    else if "D" + y !in PossibleDices then Fail("Not allowed dice: D" + y + "!")
    else if 'D' in x then Fail("Only one 'D' is allowed!")
    else if '+' in x || '-' in x then Fail("Wrong dice code!")
    else
      var count := if x == [] then 1 else DigitsValue(x);
      if z == [] || z == "+" || z == "-" then Ok(Dice(count, FaceValue(y), 0))
      else if SignCount(z) > 1 then Fail("Only one modifier is allowed!")
      else Ok(Dice(count, FaceValue(y), ModifierValue(z)))
  }

  /** `int(y)` for a `y` with `"D" + y` in `POSSIBLE_DICES`: one of the face counts. */
  function FaceValue(y: string): (n: nat)
    requires "D" + y in PossibleDices
    ensures exists k :: 0 <= k < |FaceCounts| && n == FaceCounts[k]
    ensures n == DigitsValue(y)
  {
    var k := FaceIndex(y);
    FaceCountValue(k);
    DigitsValue(y)
  }

  /** The position of `y` among the face counts. */
  function FaceIndex(y: string): (k: nat)
    requires "D" + y in PossibleDices
    ensures k < |PossibleFaces| && PossibleFaces[k] == y
  {
    var k :| 0 <= k < |PossibleDices| && PossibleDices[k] == "D" + y;
    PossibleDicesShape(k);
    assert y == ("D" + y)[1..] == ("D" + PossibleFaces[k])[1..];
    k
  }

  /** `"D" + y in POSSIBLE_DICES` says `y` is one of the face counts. */
  lemma ListedFaces(y: string)
    ensures "D" + y in PossibleDices <==> y in PossibleFaces
  {
    if "D" + y in PossibleDices {
      var k := FaceIndex(y);
    }
    if y in PossibleFaces {
      var k :| 0 <= k < |PossibleFaces| && PossibleFaces[k] == y;
      PossibleDicesShape(k);
    }
  }

  /** `roll_the_dice_re` with its `add_return_var` decoration. `draw(i)` is
      the value `randint(1, y)` returns for die `i`. */
  function RollTheDiceRe(code: string, draw: nat -> int): (r: Outcome)
    ensures r.Roll? <==> ReParse(code).Ok?
    ensures r.Err? ==> r.msg == ReParse(code).msg + " [" + code + "]"
  {
    AddReturnVar(Evaluate(ReParse(code), draw), code)
  }

  /** What a code `roll_the_dice_re` accepts is made of: digits, the `D`,
      allowed face digits, and an optional sign followed by digits; the dice
      are read off those pieces. */
  lemma {:induction false} ReOkShape(code: string)
    requires ReParse(code).Ok?
    ensures var (x, y, z) := SplitDiceCode(code);
      x + "D" + y + z == code && AllDigits(x) && AllDigits(y) && y in PossibleFaces &&
      (z != [] ==> IsSign(z[0]) && AllDigits(z[1..])) &&
      ReParse(code) == Ok(Dice(if x == [] then 1 else DigitsValue(x), DigitsValue(y), ModifierValue(z)))
  {
    AllowedNoNewline(code);
    var (x, y, z) := SplitDiceCode(code);
    assert ReGroups(x, y, z).Ok?;
    assert 'D' in code;
    SplitDiceCodeWhole(code);
    AllowedPieces(x + "D" + y, z);
    AllowedPieces(x + "D", y);
    AllowedPieces(x, "D");
    ReGroupsOk(x, y, z);
  }

  /** The groups `roll_the_dice_re` accepts, given what the match guarantees. */
  lemma {:induction false} ReGroupsOk(x: string, y: string, z: string)
    requires AllAllowed(x) && AllAllowed(y) && AllAllowed(z)
    requires NoSign(y) && 'D' !in y && 'D' !in z && (z != [] ==> IsSign(z[0]))
    requires ReGroups(x, y, z).Ok?
    ensures AllDigits(x) && AllDigits(y) && y in PossibleFaces
    ensures z != [] ==> AllDigits(z[1..])
    ensures ReGroups(x, y, z) == Ok(Dice(if x == [] then 1 else DigitsValue(x), DigitsValue(y), ModifierValue(z)))
  {
    DigitsOnly(x);
    DigitsOnly(y);
    var k := FaceIndex(y);
    if z != [] {
      assert FirstSign(z) == 0;
      if |z| > 1 {
        SignsAfterOnlySign(z);
      }
      AllowedPieces([z[0]], z[1..]);
      DigitsOnly(z[1..]);
    }
  }

  /** `int()` never raises on the way to a roll: `int(y)`, `int(x)` when `x`
      is not empty, and `int(z)` when `z` is more than a lone sign all read
      a number, the one the dice hold. */
  lemma {:induction false} ReIntCalls(code: string)
    requires ReParse(code).Ok?
    ensures var (x, y, z) := SplitDiceCode(code);
      var d := ReParse(code).value;
      PyInt(y) == Some(d.faces) &&
      (x != [] ==> PyInt(x) == Some(d.count)) &&
      (z != [] && z != "+" && z != "-" ==> PyInt(z) == Some(d.modifier))
  {
    ReOkShape(code);
    var (x, y, z) := SplitDiceCode(code);
    IntOfPieces(x, y, z);
  }

  /** `int()` of digit pieces and of a signed digit piece. */
  lemma IntOfPieces(x: string, y: string, z: string)
    requires AllDigits(x) && AllDigits(y) && y in PossibleFaces
    requires z != [] ==> IsSign(z[0]) && AllDigits(z[1..])
    ensures PyInt(y) == Some(DigitsValue(y))
    ensures x != [] ==> PyInt(x) == Some(DigitsValue(x))
    ensures z != [] && z != "+" && z != "-" ==> PyInt(z) == Some(ModifierValue(z))
  {
    var k :| 0 <= k < |PossibleFaces| && PossibleFaces[k] == y;
    PossibleDicesShape(k);
    if z != [] && z != "+" && z != "-" {
      assert |z| > 1;
    }
  }

  /** The first check of dice.py:78-80: the first character outside
      `[+\-\dD]` is reported, whatever else is wrong with the code, and no
      other check gives a message of that shape. */
  lemma ReRejectsChar(code: string)
    ensures FirstNotAllowed(code) < |code| ==>
      ReParse(code) == Fail("Not allowed char: " + [code[FirstNotAllowed(code)]])
    ensures ReParse(code).Fail? && CharMessage(ReParse(code).msg) <==> FirstNotAllowed(code) < |code|
  {
    var bad := FirstNotAllowed(code);
    if bad < |code| {
      MessageShapes(code[bad], []);
    } else {
      ReParseAllowed(code);
      var (x, y, z) := SplitDiceCode(code);
      ReGroupsMessages(x, y, z);
    }
  }

  /** No message of the group checks names a character. */
  lemma ReGroupsMessages(x: string, y: string, z: string)
    ensures ReGroups(x, y, z).Fail? ==> !CharMessage(ReGroups(x, y, z).msg)
  {
    MessageShapes('D', y + "!");
    assert "Not allowed dice: D" + y + "!" == "Not allowed dice: D" + (y + "!");
  }

  /** dice.py:82-83: no face digits after the last `D` (which covers a code
      without a `D`), once the alphabet is right. */
  lemma ReNoDice(code: string)
    ensures ReParse(code) == Fail("No dice specified!") <==> AllAllowed(code) && SplitDiceCode(code).1 == []
  {
    if AllAllowed(code) {
      ReParseAllowed(code);
      var (x, y, z) := SplitDiceCode(code);
      ReGroupsNoDice(x, y, z);
    }
  }

  lemma ReGroupsNoDice(x: string, y: string, z: string)
    ensures ReGroups(x, y, z) == Fail("No dice specified!") <==> y == []
  {
    DiceMessageStart(y + "!");
    assert "Not allowed dice: D" + y + "!" == "Not allowed dice: D" + (y + "!");
  }

  /** dice.py:84-85: face digits that are not an allowed face count, checked
      before anything about the count or the modifier. */
  lemma ReUnlisted(code: string)
    ensures var y := SplitDiceCode(code).1;
      ReParse(code) == Fail("Not allowed dice: D" + y + "!") <==> AllAllowed(code) && y != [] && y !in PossibleFaces
  {
    var (x, y, z) := SplitDiceCode(code);
    MessageShapes(if code == [] then 'D' else code[0], y + "!");
    assert "Not allowed dice: D" + y + "!" == "Not allowed dice: D" + (y + "!");
    if AllAllowed(code) {
      ReParseAllowed(code);
      ReGroupsUnlisted(x, y, z);
    } else {
      MessageShapes(code[FirstNotAllowed(code)], y + "!");
    }
  }

  lemma ReGroupsUnlisted(x: string, y: string, z: string)
    ensures ReGroups(x, y, z) == Fail("Not allowed dice: D" + y + "!") <==> y != [] && y !in PossibleFaces
  {
    ListedFaces(y);
    DiceMessageStart(y + "!");
    assert "Not allowed dice: D" + y + "!" == "Not allowed dice: D" + (y + "!");
  }

  /** dice.py:88-89: a `D` in front of the last one, checked once the face
      digits are allowed. */
  lemma ReManyD(code: string)
    ensures var (x, y, z) := SplitDiceCode(code);
      ReParse(code) == Fail("Only one 'D' is allowed!") <==> AllAllowed(code) && y in PossibleFaces && 'D' in x
  {
    if AllAllowed(code) {
      ReParseAllowed(code);
      var (x, y, z) := SplitDiceCode(code);
      ReGroupsLater(x, y, z);
    }
  }

  /** dice.py:90-91: a sign in the count, once it holds no `D`. */
  lemma ReWrongCode(code: string)
    ensures var (x, y, z) := SplitDiceCode(code);
      ReParse(code) == Fail("Wrong dice code!") <==>
        AllAllowed(code) && y in PossibleFaces && 'D' !in x && ('+' in x || '-' in x)
  {
    if AllAllowed(code) {
      ReParseAllowed(code);
      var (x, y, z) := SplitDiceCode(code);
      ReGroupsLater(x, y, z);
    }
  }

  /** dice.py:99-100: a second sign in the modifier, checked last. */
  lemma ReManySigns(code: string)
    ensures var (x, y, z) := SplitDiceCode(code);
      ReParse(code) == Fail("Only one modifier is allowed!") <==>
        AllAllowed(code) && y in PossibleFaces && 'D' !in x && NoSign(x) && SignCount(z) > 1
  {
    if AllAllowed(code) {
      ReParseAllowed(code);
      var (x, y, z) := SplitDiceCode(code);
      ReGroupsLater(x, y, z);
    }
  }

  /** The three messages that follow the face check, and when each comes. */
  lemma ReGroupsLater(x: string, y: string, z: string)
    ensures ReGroups(x, y, z) == Fail("Only one 'D' is allowed!") <==> y in PossibleFaces && 'D' in x
    ensures ReGroups(x, y, z) == Fail("Wrong dice code!") <==>
      y in PossibleFaces && 'D' !in x && ('+' in x || '-' in x)
    ensures ReGroups(x, y, z) == Fail("Only one modifier is allowed!") <==>
      y in PossibleFaces && 'D' !in x && NoSign(x) && SignCount(z) > 1
  {
    ListedFaces(y);
    DiceMessageStart(y + "!");
    assert "Not allowed dice: D" + y + "!" == "Not allowed dice: D" + (y + "!");
    if NoSign(x) {
      assert !('+' in x || '-' in x);
    }
    if z == "+" || z == "-" {
      assert SignCount(z) == 1;
    }
  }

  /** A sign at the end of a code reads as that sign followed by `0`
      (`z` is then a lone sign, which counts as 0, or `z + "0"` has as many
      signs as `z`). */
  lemma {:induction false} ReTrailingSign(code: string)
    requires code != [] && IsSign(code[|code| - 1])
    ensures ReParse(code + "0") == ReParse(code)
  {
    var bad := FirstNotAllowed(code);
    if bad < |code| {
      ReTrailingBadChar(code, bad);
    } else if 'D' in code {
      ReTrailingAllowed(code);
    } else {
      ReTrailingNoD(code);
    }
  }

  /** A character outside the alphabet is reported with or without the `0`. */
  lemma ReTrailingBadChar(code: string, bad: nat)
    requires bad == FirstNotAllowed(code) && bad < |code|
    ensures ReParse(code + "0") == ReParse(code)
  {
    var code0 := code + "0";
    assert code0[bad] == code[bad];
    assert FirstNotAllowed(code0) == bad;
  }

  /** Without a `D` neither text matches. */
  lemma ReTrailingNoD(code: string)
    requires AllAllowed(code) && 'D' !in code
    ensures ReParse(code + "0") == ReParse(code)
  {
    var code0 := code + "0";
    assert AllAllowed(code0);
    assert 'D' !in code0;
    AllowedNoNewline(code);
    AllowedNoNewline(code0);
    FirstLineUnique(code, code);
    FirstLineUnique(code0, code0);
  }

  /** With a `D`, the `0` joins the third group. */
  lemma {:induction false} ReTrailingAllowed(code: string)
    requires code != [] && IsSign(code[|code| - 1]) && AllAllowed(code) && 'D' in code
    ensures ReParse(code + "0") == ReParse(code)
  {
    var code0 := code + "0";
    AllowedConcat(code, "0");
    ReParseAllowed(code);
    ReParseAllowed(code0);
    var (x, y, z) := SplitDiceCode(code);
    TrailingGroups(code, x, y, z);
    ReGroupsTrailing(x, y, z);
  }

  /** An allowed code is judged on its three groups. */
  lemma ReParseAllowed(code: string)
    requires AllAllowed(code)
    ensures var (x, y, z) := SplitDiceCode(code); ReParse(code) == ReGroups(x, y, z)
  {
    assert FirstNotAllowed(code) == |code|;
  }

  /** The groups of a code ending in a sign, and of the same code with `0`. */
  lemma {:induction false} TrailingGroups(code: string, x: string, y: string, z: string)
    requires code != [] && IsSign(code[|code| - 1]) && AllAllowed(code) && 'D' in code
    requires (x, y, z) == SplitDiceCode(code)
    ensures z != [] && IsSign(z[0]) && IsSign(z[|z| - 1])
    ensures SplitDiceCode(code + "0") == (x, y, z + "0")
  {
    AllowedNoNewline(code);
    FirstLineUnique(code, code);
    SplitDiceCodeWhole(code);
    assert z != [] && IsSign(z[|z| - 1]) by {
      assert code == (x + "D" + y) + z;
    }
    PaddedMatch(code, x, y, z);
    SplitDiceCodeUnique(code + "0", x, y, z + "0");
  }

  /** A third group ending in a sign reads like the same group followed by `0`. */
  lemma {:induction false} ReGroupsTrailing(x: string, y: string, z: string)
    requires z != [] && IsSign(z[0]) && IsSign(z[|z| - 1])
    ensures ReGroups(x, y, z + "0") == ReGroups(x, y, z)
  {
    OccurrencesAppend(z, "0", '+');
    OccurrencesAppend(z, "0", '-');
    if |z| > 1 {
      assert z[1..][|z| - 2] == z[|z| - 1];
      assert SignCount(z[1..]) > 0;
    } else {
      assert (z + "0")[1..] == "0";
    }
  }

  /** Appending `0` after a trailing sign extends the third group only. */
  lemma {:induction false} PaddedMatch(code: string, x: string, y: string, z: string)
    requires '\n' !in code && FirstLine(code) == code
    requires x + "D" + y + z == code && GreedyMatch(code, x, y, z) && z != []
    ensures GreedyMatch(code + "0", x, y, z + "0")
  {
    var code0 := code + "0";
    FirstLineUnique(code0, code0);
    assert code0 == x + "D" + y + (z + "0");
    ConcatPrefix(code0, x, y, z + "0");
  }
}
