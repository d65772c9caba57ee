/** The dice notation `xDy+z` as a grammar, and what each parser of dice.py
    makes of it.

    A well-formed notation is a digit run (the count, possibly empty), a
    `D`, a digit run (the faces, possibly empty) and an optional sign
    followed by a digit run (possibly empty). Both parsers accept exactly
    the rendered notations whose face digits they allow: `roll_the_dice`
    those whose face digits START with an allowed face count (its check is a
    substring search, so `D30` passes as a die with 30 faces), and
    `roll_the_dice_re` those whose face digits ARE an allowed face count.
    On a code both accept, they build the same dice. */
module DiceNotation {
  import opened PyStr
  import opened DiceCore
  import opened Scan
  import opened Regex

  /** The optional `+z` / `-z` part. */
  datatype Modifier = NoModifier | Signed(sign: char, digits: string)

  /** `count` `D` `faces` `modifier`, each part as written. */
  datatype Notation = Notation(count: string, faces: string, modifier: Modifier)

  function ModifierText(m: Modifier): string
  {
    match m
    case NoModifier => ""
    case Signed(s, d) => [s] + d
  }

  /** The dice code a notation is written as. */
  function Render(n: Notation): string
  {
    n.count + "D" + n.faces + ModifierText(n.modifier)
  }

  predicate WellFormed(n: Notation)
  {
    AllDigits(n.count) && AllDigits(n.faces) &&
    (n.modifier.Signed? ==> IsSign(n.modifier.sign) && AllDigits(n.modifier.digits))
  }

  /** The number a modifier stands for; a sign with no digits is 0. */
  function ModifierNumber(m: Modifier): int
  {
    match m
    case NoModifier => 0
    case Signed(s, d) => if s == '-' then 0 - DigitsValue(d) else DigitsValue(d)
  }

  /** The dice a notation denotes: a missing count is one die. */
  function Meaning(n: Notation): Dice
  {
    Dice(if n.count == [] then 1 else DigitsValue(n.count), DigitsValue(n.faces), ModifierNumber(n.modifier))
  }

  /** Reads a code as a notation around its first `D`. */
  function Decompose(code: string): Notation
  {
    var d := IndexOf(code, 'D');
    var rest := if d < |code| then code[d + 1..] else [];
    var f := SignFreePrefix(rest);
    var t := rest[|f|..];
    Notation(code[..d], f, if t == [] then NoModifier else Signed(t[0], t[1..]))
  }

  /** What a rendered notation looks like to the parsers: only dice
      characters, one `D` right after the count, and at most one sign. */
  lemma {:induction false} RenderShape(n: Notation)
    requires WellFormed(n)
    ensures AllAllowed(Render(n))
    ensures Occurrences(Render(n), 'D') == 1 && SignCount(Render(n)) <= 1
    ensures IndexOf(Render(n), 'D') == |n.count|
    ensures Render(n)[..|n.count|] == n.count
    ensures AfterD(Render(n)) == n.faces + ModifierText(n.modifier)
  {
    ModifierShape(n.modifier);
    PiecesShape(n.count, n.faces, ModifierText(n.modifier));
  }

  /** The modifier text: dice characters, no `D`, at most one sign. */
  lemma ModifierShape(m: Modifier)
    requires m.Signed? ==> IsSign(m.sign) && AllDigits(m.digits)
    ensures AllAllowed(ModifierText(m)) && 'D' !in ModifierText(m) && SignCount(ModifierText(m)) <= 1
  {
    if m.Signed? {
      var t := ModifierText(m);
      assert t[1..] == m.digits;
      DigitsShape(m.digits);
    }
  }

  /** A digit run is allowed and holds neither a `D` nor a sign. */
  lemma DigitsShape(s: string)
    requires AllDigits(s)
    ensures AllAllowed(s) && 'D' !in s && NoSign(s) && SignCount(s) == 0 && Occurrences(s, 'D') == 0
  {
  }

  /** Count, `D`, faces and a modifier text laid end to end. */
  lemma {:induction false} PiecesShape(c: string, f: string, t: string)
    requires AllDigits(c) && AllDigits(f) && AllAllowed(t) && 'D' !in t && SignCount(t) <= 1
    ensures var code := c + "D" + f + t;
      AllAllowed(code) && Occurrences(code, 'D') == 1 && SignCount(code) <= 1 &&
      IndexOf(code, 'D') == |c| && code[..|c|] == c && AfterD(code) == f + t
  {
    DigitsShape(c);
    DigitsShape(f);
    PiecesCount(c, f, t, 'D');
    PiecesCount(c, f, t, '+');
    PiecesCount(c, f, t, '-');
    AllowedConcat(f, t);
    AllowedConcat(c, "D");
    AllowedConcat(c + "D", f + t);
    SliceAroundD(c, f, t);
  }

  /** Where the `D` sits in `c + "D" + f + t` when `c` has none. */
  lemma SliceAroundD(c: string, f: string, t: string)
    requires 'D' !in c
    ensures var code := c + "D" + f + t;
      code == (c + "D") + (f + t) &&
      IndexOf(code, 'D') == |c| && code[..|c|] == c && AfterD(code) == f + t
  {
    var code := c + "D" + f + t;
    Regroup(c, f, t);
    IndexOfAfter(c, "D" + (f + t), 'D');
    AroundD(c, f + t);
  }

  lemma Regroup(c: string, f: string, t: string)
    ensures c + "D" + f + t == c + ("D" + (f + t)) == (c + "D") + (f + t)
  {
  }

  lemma AroundD(c: string, r: string)
    ensures (c + "D" + r)[..|c|] == c && (c + "D" + r)[|c| + 1..] == r
  {
  }

  lemma {:induction false} PiecesCount(c: string, f: string, t: string, ch: char)
    ensures Occurrences(c + "D" + f + t, ch) == Occurrences(c, ch) + Occurrences("D", ch) + Occurrences(f, ch) + Occurrences(t, ch)
  {
    OccurrencesAppend(c + "D" + f, t, ch);
    OccurrencesAppend(c + "D", f, ch);
    OccurrencesAppend(c, "D", ch);
  }

  /** Reading a rendered notation back gives the notation. */
  lemma {:induction false} RenderDecompose(n: Notation)
    requires WellFormed(n)
    ensures Decompose(Render(n)) == n
  {
    RenderShape(n);
    var code, t := Render(n), ModifierText(n.modifier);
    var rest := n.faces + t;
    SignFreePrefixUnique(n.faces, rest);
    assert rest[|n.faces|..] == t;
    if n.modifier.Signed? {
      assert t[1..] == n.modifier.digits;
    }
  }

  /** A code with allowed characters, one `D`, at most one sign and none
      before the `D` is the rendering of the notation read from it. */
  lemma {:induction false} DecomposeRender(code: string)
    requires AllAllowed(code) && Occurrences(code, 'D') == 1 && SignCount(code) <= 1
    requires NoSign(code[..IndexOf(code, 'D')])
    ensures WellFormed(Decompose(code)) && Render(Decompose(code)) == code
  {
    var n := Decompose(code);
    var d := IndexOf(code, 'D');
    var c, rest := code[..d], code[d + 1..];
    CutAtD(code);
    AllowedPieces(c + "D", rest);
    AllowedPieces(c, "D");
    CountPieces(c, rest, 'D');
    CountPieces(c, rest, '+');
    CountPieces(c, rest, '-');
    DigitsOnly(c);
    ModifierPart(rest);
    var f, t := SignFreePrefix(rest), rest[|SignFreePrefix(rest)|..];
    assert n == Notation(c, f, if t == [] then NoModifier else Signed(t[0], t[1..]));
    ModifierTextOf(t);
    Reassoc(c + "D", f, t);
  }

  lemma Reassoc(a: string, b: string, c: string)
    ensures a + (b + c) == a + b + c
  {
  }

  /** A code holding a `D` is what precedes it, the `D` and what follows it. */
  lemma CutAtD(code: string)
    requires Occurrences(code, 'D') == 1
    ensures IndexOf(code, 'D') < |code|
    ensures var d := IndexOf(code, 'D'); code == code[..d] + "D" + code[d + 1..]
  {
    var d := IndexOf(code, 'D');
    assert 'D' in code;
    assert code[d] == 'D';
    assert [code[d]] == "D";
    CutAt(code, d);
  }

  lemma {:induction false} CountPieces(c: string, rest: string, ch: char)
    ensures Occurrences(c + "D" + rest, ch) == Occurrences(c, ch) + Occurrences("D", ch) + Occurrences(rest, ch)
  {
    OccurrencesAppend(c + "D", rest, ch);
    OccurrencesAppend(c, "D", ch);
  }

  /** What follows the only `D`: face digits, then nothing or a sign and digits. */
  lemma {:induction false} ModifierPart(rest: string)
    requires AllAllowed(rest) && 'D' !in rest && SignCount(rest) <= 1
    ensures var f := SignFreePrefix(rest); var t := rest[|f|..];
      AllDigits(f) && rest == f + t && (t != [] ==> IsSign(t[0]) && AllDigits(t[1..]))
  {
    var f := SignFreePrefix(rest);
    var t := rest[|f|..];
    assert rest == f + t;
    AllowedPieces(f, t);
    DigitsOnly(f);
    if t != [] {
      SignsAfterOnlySign(rest);
      assert t[1..] == rest[FirstSign(rest) + 1..];
      AllowedPieces([t[0]], t[1..]);
      DigitsOnly(t[1..]);
    }
  }

  /** The modifier read from a modifier text renders as that text. */
  lemma ModifierTextOf(t: string)
    ensures ModifierText(if t == [] then NoModifier else Signed(t[0], t[1..])) == t
  {
    if t != [] {
      assert [t[0]] + t[1..] == t;
    }
  }

  /** The number a modifier text stands for is the modifier's number. */
  lemma ModifierMeaning(m: Modifier)
    ensures ModifierValue(ModifierText(m)) == ModifierNumber(m)
  {
    if m.Signed? {
      assert ModifierText(m)[1..] == m.digits;
    }
  }

  /** The notation `roll_the_dice` actually reads once it has put a `0`
      after a trailing sign. */
  function Pad(n: Notation): (r: Notation)
    ensures WellFormed(n) ==> WellFormed(r)
    ensures r.count == n.count && r.faces == n.faces && Meaning(r) == Meaning(n)
    ensures WellFormed(n) ==> Render(r) == Padded(Render(n))
  {
    match n.modifier
    case Signed(s, d) =>
      if d == [] then
        var r := Notation(n.count, n.faces, Signed(s, "0"));
        assert DigitsValue("0") == 0;
        assert Render(r) == Render(n) + "0";
        r
      else
        assert Render(n)[|Render(n)| - 1] == d[|d| - 1];
        n
    case NoModifier =>
      assert Render(n) == n.count + "D" + n.faces;
      n
  }

  /** In a rendered notation the only place an entry of `POSSIBLE_DICES` can
      sit is at the `D`, so the for-else search of `roll_the_dice` succeeds
      exactly when an allowed face count starts the face digits. */
  lemma {:induction false} DiceInRender(n: Notation)
    requires WellFormed(n)
    ensures ContainsPossibleDice(Render(n)) <==> HasFacePrefix(n.faces)
  {
    if ContainsPossibleDice(Render(n)) {
      DiceFoundInRender(n);
    }
    if HasFacePrefix(n.faces) {
      DicePutInRender(n);
    }
  }

  /** An entry of `POSSIBLE_DICES` inside a rendered notation starts its faces. */
  lemma DiceFoundInRender(n: Notation)
    requires WellFormed(n) && ContainsPossibleDice(Render(n))
    ensures HasFacePrefix(n.faces)
  {
    RenderShape(n);
    var t := ModifierText(n.modifier);
    ModifierShape(n.modifier);
    FoundDiceIsAfterD(Render(n));
    var k :| 0 <= k < |PossibleFaces| && PossibleFaces[k] <= n.faces + t;
    FacePrefixOfFaces(k, n.faces, t);
  }

  /** Faces that start with an allowed face count put an entry of
      `POSSIBLE_DICES` into the rendered notation. */
  lemma DicePutInRender(n: Notation)
    requires WellFormed(n) && HasFacePrefix(n.faces)
    ensures ContainsPossibleDice(Render(n))
  {
    RenderShape(n);
    var k :| 0 <= k < |PossibleFaces| && PossibleFaces[k] <= n.faces;
    DiceAtD(Render(n), n.count, n.faces + ModifierText(n.modifier), k);
  }

  /** A face count that starts `f + t`, where `t` is empty or starts with a
      sign, starts `f`. */
  lemma FacePrefixOfFaces(k: nat, f: string, t: string)
    requires k < |PossibleFaces| && PossibleFaces[k] <= f + t
    requires t != [] ==> IsSign(t[0])
    ensures PossibleFaces[k] <= f
  {
    var g := PossibleFaces[k];
    PossibleDicesShape(k);
    if |f| < |g| {
      FirstAfter(f, t, g);
      assert false;
    }
    forall j | 0 <= j < |g|
      ensures g[j] == f[j]
    {
      assert g[j] == (f + t)[j];
    }
  }

  /** What stands right after `f` in `f + t`, seen through a prefix `g`. */
  lemma FirstAfter(f: string, t: string, g: string)
    ensures g <= f + t && |f| < |g| ==> g[|f|] == t[0]
  {
  }

  /** `roll_the_dice` on a rendered notation, once the code is padded: an
      unlisted face count is reported with the face digits, anything else
      gives the dice the notation denotes. */
  lemma {:induction false} ScanPaddedRender(n: Notation)
    requires WellFormed(n)
    ensures ScanPadded(Render(n)) ==
      if HasFacePrefix(n.faces) then Ok(Meaning(n)) else Fail("Not allowed dice: D" + n.faces)
  {
    RenderShape(n);
    DiceInRender(n);
    var t := ModifierText(n.modifier);
    ModifierShape(n.modifier);
    var rest := n.faces + t;
    SignFreePrefixUnique(n.faces, rest);
    assert rest[|n.faces|..] == t;
    ModifierMeaning(n.modifier);
    DigitsShape(n.count);
  }

  /** `roll_the_dice` on a well-formed notation: the notation's dice when an
      allowed face count starts the face digits, otherwise the not-allowed
      error naming the face digits. */
  lemma {:induction false} ScanRender(n: Notation)
    requires WellFormed(n)
    ensures ScanParse(Render(n)) ==
      if HasFacePrefix(n.faces) then Ok(Meaning(n)) else Fail("Not allowed dice: D" + n.faces)
  {
    RenderShape(n);
    var code := Render(n);
    assert FirstNotAllowed(code) == |code|;
    ScanPaddedRender(Pad(n));
  }

  /** A code `roll_the_dice` accepts is a well-formed notation with an
      allowed face count at the start of its face digits, and the dice are
      the ones it denotes. */
  lemma {:induction false} ScanOkIsRender(code: string)
    requires ScanParse(code).Ok?
    ensures var n := Decompose(code);
      WellFormed(n) && Render(n) == code && HasFacePrefix(n.faces) &&
      ScanParse(code) == Ok(Meaning(n))
  {
    CountHasNoSign(code);
    DecomposeRender(code);
    ScanRender(Decompose(code));
  }

  /** On a code `roll_the_dice` accepts, no sign comes before the `D`. */
  lemma {:induction false} CountHasNoSign(code: string)
    requires ScanParse(code).Ok?
    ensures NoSign(code[..IndexOf(code, 'D')])
  {
    var p := Padded(code);
    assert ScanPadded(p).Ok?;
    assert NoSign(p[..IndexOf(p, 'D')]);
    PaddedPrefix(code);
  }

  /** The dice `roll_the_dice` rolls have at least three faces: the face
      digits start with an allowed face count, and more digits only add. */
  lemma ScanFacesAtLeastThree(code: string)
    requires ScanParse(code).Ok?
    ensures ScanParse(code).value.faces >= 3
  {
    ScanOkIsRender(code);
    PrefixFacesAtLeastThree(Decompose(code).faces);
  }

  lemma PrefixFacesAtLeastThree(f: string)
    requires HasFacePrefix(f)
    ensures DigitsValue(f) >= 3
  {
    var k :| 0 <= k < |PossibleFaces| && PossibleFaces[k] <= f;
    var g := PossibleFaces[k];
    assert f == g + f[|g|..];
    DigitsValueExtend(g, f[|g|..]);
    FaceCountValue(k);
  }

  /** `roll_the_dice` accepts exactly the well-formed notations whose face
      digits start with an allowed face count. */
  lemma ScanAccepts(code: string)
    ensures ScanParse(code).Ok? <==>
      exists n :: WellFormed(n) && HasFacePrefix(n.faces) && Render(n) == code
  {
    if ScanParse(code).Ok? {
      ScanAcceptedIsNotation(code);
    }
    if exists n :: WellFormed(n) && HasFacePrefix(n.faces) && Render(n) == code {
      var n :| WellFormed(n) && HasFacePrefix(n.faces) && Render(n) == code;
      ScanAcceptsNotation(n);
    }
  }

  lemma ScanAcceptedIsNotation(code: string)
    requires ScanParse(code).Ok?
    ensures exists n :: WellFormed(n) && HasFacePrefix(n.faces) && Render(n) == code
  {
    ScanOkIsRender(code);
    var n := Decompose(code);
    assert WellFormed(n) && HasFacePrefix(n.faces) && Render(n) == code;
  }

  lemma ScanAcceptsNotation(n: Notation)
    requires WellFormed(n) && HasFacePrefix(n.faces)
    ensures ScanParse(Render(n)).Ok?
  {
    ScanRender(n);
  }

  /** The three groups of the regular expression on a rendered notation are
      its count, its face digits and its modifier text. */
  lemma {:induction false} RenderMatch(n: Notation)
    requires WellFormed(n)
    ensures GreedyMatch(Render(n), n.count, n.faces, ModifierText(n.modifier))
  {
    RenderShape(n);
    ModifierShape(n.modifier);
    var code, c, f, t := Render(n), n.count, n.faces, ModifierText(n.modifier);
    AllowedNoNewline(code);
    AllowedNoNewline(t);
    DigitsShape(f);
    LastDAt(code, |c|, f + t);
    SignFreeRunBefore(code, |c| + 1, f, t);
    SignedGroupAfter(code, |c| + 1, f, t);
  }

  /** The `D` at `i` is the last one of the first line when nothing after it
      is a `D` and there is no newline. */
  lemma LastDAt(code: string, i: nat, r: string)
    requires '\n' !in code && i < |code| && code[i] == 'D' && code[i + 1..] == r && 'D' !in r
    ensures LastDOfFirstLine(code, i)
  {
    FirstLineUnique(code, code);
    forall j | i < j < |code|
      ensures code[j] != 'D'
    {
      assert code[j] == r[j - i - 1];
    }
  }

  /** `f` followed by a sign or nothing is the sign-free run at `i`. */
  lemma SignFreeRunBefore(code: string, i: nat, f: string, t: string)
    requires i <= |code| && code[i..] == f + t && NoSign(f) && (t != [] ==> IsSign(t[0]))
    ensures SignFreeRunAt(code, i, f)
  {
    if i + |f| < |code| {
      assert code[i + |f|] == (f + t)[|f|];
    }
  }

  /** A sign and the rest of the code after `f` is the signed group. */
  lemma SignedGroupAfter(code: string, i: nat, f: string, t: string)
    requires i <= |code| && code[i..] == f + t && '\n' !in t && (t != [] ==> IsSign(t[0]))
    ensures SignedLineAt(code, i + |f|, t)
  {
    assert code[i + |f|..] == t by {
      assert code[i..][|f|..] == t;
    }
  }

  /** `roll_the_dice_re` on a well-formed notation: no face digits is "no
      dice", face digits that are not an allowed face count are reported
      with a `!`, and anything else gives the notation's dice. */
  lemma {:induction false} ReRender(n: Notation)
    requires WellFormed(n)
    ensures ReParse(Render(n)) ==
      if n.faces == [] then Fail("No dice specified!")
      else if n.faces !in PossibleFaces then Fail("Not allowed dice: D" + n.faces + "!")
      else Ok(Meaning(n))
  {
    RenderShape(n);
    var code := Render(n);
    assert FirstNotAllowed(code) == |code|;
    RenderMatch(n);
    SplitDiceCodeUnique(code, n.count, n.faces, ModifierText(n.modifier));
    ReGroupsRender(n);
  }

  /** The checks of dice.py:82-103 on the groups of a rendered notation. */
  lemma {:induction false} ReGroupsRender(n: Notation)
    requires WellFormed(n)
    ensures ReGroups(n.count, n.faces, ModifierText(n.modifier)) ==
      if n.faces == [] then Fail("No dice specified!")
      else if n.faces !in PossibleFaces then Fail("Not allowed dice: D" + n.faces + "!")
      else Ok(Meaning(n))
  {
    var t := ModifierText(n.modifier);
    DigitsShape(n.count);
    ModifierShape(n.modifier);
    ModifierMeaning(n.modifier);
    ListedFaces(n.faces);
    if n.modifier.Signed? && n.modifier.digits == [] {
      assert t == [n.modifier.sign];
    }
  }

  /** A code `roll_the_dice_re` accepts is a well-formed notation whose face
      digits are an allowed face count, and the dice are the ones it denotes. */
  lemma {:induction false} ReOkIsRender(code: string)
    requires ReParse(code).Ok?
    ensures var n := Decompose(code);
      WellFormed(n) && Render(n) == code && n.faces in PossibleFaces &&
      ReParse(code) == Ok(Meaning(n))
  {
    ReOkShape(code);
    var (x, y, z) := SplitDiceCode(code);
    var n := Notation(x, y, if z == [] then NoModifier else Signed(z[0], z[1..]));
    ModifierTextOf(z);
    assert WellFormed(n) && Render(n) == code;
    RenderDecompose(n);
    ReRender(n);
  }

  /** `roll_the_dice_re` accepts exactly the well-formed notations whose face
      digits are an allowed face count. */
  lemma ReAccepts(code: string)
    ensures ReParse(code).Ok? <==>
      exists n :: WellFormed(n) && n.faces in PossibleFaces && Render(n) == code
  {
    if ReParse(code).Ok? {
      ReAcceptedIsNotation(code);
    }
    if exists n :: WellFormed(n) && n.faces in PossibleFaces && Render(n) == code {
      var n :| WellFormed(n) && n.faces in PossibleFaces && Render(n) == code;
      ReAcceptsNotation(n);
    }
  }

  lemma ReAcceptedIsNotation(code: string)
    requires ReParse(code).Ok?
    ensures exists n :: WellFormed(n) && n.faces in PossibleFaces && Render(n) == code
  {
    ReOkIsRender(code);
    var n := Decompose(code);
    assert WellFormed(n) && n.faces in PossibleFaces && Render(n) == code;
  }

  lemma ReAcceptsNotation(n: Notation)
    requires WellFormed(n) && n.faces in PossibleFaces
    ensures ReParse(Render(n)).Ok?
  {
    ReRender(n);
    assert n.faces != [];
  }

  /** Whatever `roll_the_dice_re` accepts, `roll_the_dice` accepts too, with
      the same dice. */
  lemma {:induction false} ParsersAgree(code: string)
    requires ReParse(code).Ok?
    ensures ScanParse(code) == ReParse(code)
  {
    ReOkIsRender(code);
    ListedScans(Decompose(code));
  }

  /** The scanner reads a notation with a listed face count as its meaning. */
  lemma ListedScans(n: Notation)
    requires WellFormed(n) && n.faces in PossibleFaces
    ensures ScanParse(Render(n)) == Ok(Meaning(n))
  {
    var k :| 0 <= k < |PossibleFaces| && PossibleFaces[k] == n.faces;
    assert HasFacePrefix(n.faces);
    ScanRender(n);
  }

  /** Where `roll_the_dice` accepts a code, `roll_the_dice_re` accepts it
      when the face digits are an allowed face count, and otherwise rejects
      the face digits that only start with one. */
  lemma {:induction false} ScanOkReVerdict(code: string)
    requires ScanParse(code).Ok?
    ensures var f := Decompose(code).faces;
      ReParse(code) ==
        if f in PossibleFaces then ScanParse(code) else Fail("Not allowed dice: D" + f + "!")
  {
    ScanOkIsRender(code);
    var n := Decompose(code);
    var k :| 0 <= k < |PossibleFaces| && PossibleFaces[k] <= n.faces;
    PossibleDicesShape(k);
    ReRender(n);
  }

  /** Both roll functions, decorated, give the same outcome on every code
      `roll_the_dice_re` accepts. */
  lemma RollsAgree(code: string, draw: nat -> int)
    requires ReParse(code).Ok?
    ensures RollTheDiceRe(code, draw) == ScanOutcome(code, draw)
  {
    ParsersAgree(code);
  }
}
