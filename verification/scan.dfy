/** `roll_the_dice` (dice.py:17-55): the hand-written scanner.

    `ScanParse` states which error or which dice the function arrives at;
    `RollTheDiceUnwrapped` is the function's own step-by-step code (its
    character loop, the for-else search over `POSSIBLE_DICES`, the
    `split`/`replace` calls, the `try`/`except` around `int()` and the sum
    over the draws), proved to arrive at exactly that; `RollTheDice` adds
    the `add_return_var` decoration. */
module Scan {
  import opened PyStr
  import opened DiceCore

  /** `code += "0"` when the code ends with a sign (dice.py:36-37): the
      padded code never ends with a sign. */
  function Padded(code: string): (p: string)
    ensures code <= p && |p| <= |code| + 1
    ensures p != [] ==> !IsSign(p[|p| - 1])
    ensures AllAllowed(code) ==> AllAllowed(p)
  {
    if code != [] && IsSign(code[|code| - 1]) then code + "0" else code
  }

  /** Padding adds neither a `D` nor a sign. */
  lemma {:induction false} PaddedCounts(code: string)
    ensures Occurrences(Padded(code), 'D') == Occurrences(code, 'D')
    ensures SignCount(Padded(code)) == SignCount(code)
  {
    OccurrencesAppend(code, "0", 'D');
    OccurrencesAppend(code, "0", '+');
    OccurrencesAppend(code, "0", '-');
  }

  /** The for-else test of dice.py:38-42: some entry of `POSSIBLE_DICES`
      occurs in `s` as a substring. */
  predicate ContainsPossibleDice(s: string)
  {
    exists k :: 0 <= k < |PossibleDices| && IsSubstring(PossibleDices[k], s)
  }

  /** The text after the first `D` of `s` (empty when there is none). */
  function AfterD(s: string): string
  {
    var d := IndexOf(s, 'D');
    if d < |s| then s[d + 1..] else []
  }

  /** Some allowed face count starts `t`. */
  predicate HasFacePrefix(t: string)
  {
    exists k :: 0 <= k < |PossibleFaces| && PossibleFaces[k] <= t
  }

  /** What `roll_the_dice` decides about `code`, check by check: the alphabet,
      the number of `D`s, the number of signs, then (after padding) the rest. */
  function ScanParse(code: string): (r: Result<Dice>)
    ensures r.Ok? ==> AllAllowed(code) && Occurrences(code, 'D') == 1 && SignCount(code) <= 1
  {
    var bad := FirstNotAllowed(code);
    if bad < |code| then Fail("Not allowed char: " + [code[bad]])
    else if Occurrences(code, 'D') == 0 then Fail("No dice specified!")
    else if Occurrences(code, 'D') > 1 then Fail("Only one 'D' is allowed!")
    else if SignCount(code) > 1 then Fail("Only one modifier is allowed!")
    else ScanPadded(Padded(code))
  }

  /** What `roll_the_dice` decides about the padded code `p` once the
      alphabet, `D` and sign checks have passed: the dice search, the sign
      test on the count, and the count, faces and modifier. */
  function ScanPadded(p: string): (r: Result<Dice>)
  {
    var d := IndexOf(p, 'D');
    var x, rest := p[..d], AfterD(p);
    if !ContainsPossibleDice(p) then Fail("Not allowed dice: D" + SignFreePrefix(rest))
    else if !NoSign(x) then Fail("Wrong dice code!")
    else
      var y := SignFreePrefix(rest);
      Ok(Dice(if x == [] then 1 else DigitsValue(x), DigitsValue(y), ModifierValue(rest[|y|..])))
  }

  /** A code that passed the first three checks, padded: allowed characters
      only, one `D`, at most one sign, and no sign at the end. */
  predicate PaddedShape(p: string)
  {
    AllAllowed(p) && Occurrences(p, 'D') == 1 && SignCount(p) <= 1 && (p != [] ==> !IsSign(p[|p| - 1]))
  }

  /** What the decorated `roll_the_dice` returns: the roll of the parsed
      dice, or the error message followed by ` [<code>]`. */
  function ScanOutcome(code: string, draw: nat -> int): Outcome
  {
    AddReturnVar(Evaluate(ScanParse(code), draw), code)
  }

  /** `roll_the_dice` with its decoration: the method below, then `add_return_var`. */
  method RollTheDice(code: string, draw: nat -> int) returns (r: Outcome)
    ensures r == ScanOutcome(code, draw)
  {
    r := RollTheDiceUnwrapped(code, draw);
    r := AddReturnVar(r, code);
  }

  /** The body of `roll_the_dice` (dice.py:26-55). `draw(i)` is the value
      `randint(1, y)` returns for die `i`. */
  method RollTheDiceUnwrapped(code: string, draw: nat -> int) returns (r: Outcome)
    ensures r == Evaluate(ScanParse(code), draw)
  {
    var k := 0;
    while k < |code|
      invariant k <= |code|
      invariant forall j :: 0 <= j < k ==> IsDiceChar(code[j])
    {
      if !IsDiceChar(code[k]) {
        assert FirstNotAllowed(code) == k;
        return Err("Not allowed char: " + [code[k]]);
      }
      k := k + 1;
    }
    assert FirstNotAllowed(code) == |code|;
    if 'D' !in code {
      return Err("No dice specified!");
    } else if Occurrences(code, 'D') > 1 {
      return Err("Only one 'D' is allowed!");
    }
    var padded := code;
    if Occurrences(code, '+') + Occurrences(code, '-') > 1 {
      return Err("Only one modifier is allowed!");
    } else if IsSign(code[|code| - 1]) {
      padded := code + "0";
    }
    assert padded == Padded(code);
    PaddedCounts(code);
    r := RollPadded(padded, draw);
  }

  /** dice.py:38-55 on the padded code. */
  method RollPadded(p: string, draw: nat -> int) returns (r: Outcome)
    requires PaddedShape(p)
    ensures r == Evaluate(ScanPadded(p), draw)
  {
    var found := DiceListed(p);
    var halves := Split(p, 'D');
    PaddedCases(p);
    if !found {
      return Err("Not allowed dice: D" + Split(Replace(halves[1], '-', "+"), '+')[0]);
    }
    var x, rest := halves[0], halves[1];
    if '+' in x || '-' in x {
      return Err("Wrong dice code!");
    }
    var count: nat := 1;
    if x != [] {
      count := PyInt(x).value;
    }
    var faces, modifier := FacesAndModifier(rest);
    assert ScanPadded(p) == Ok(Dice(count, faces, modifier));
    r := RollDice(Dice(count, faces, modifier), draw);
  }

  /** `sum([randint(1, y) for _ in range(x)]) + z` of dice.py:55, with
      `draw(i)` standing for the `i`-th call of `randint`. */
  method RollDice(d: Dice, draw: nat -> int) returns (r: Outcome)
    ensures r == Evaluate(Ok(d), draw)
  {
    var total := 0;
    for n := 0 to d.count
      invariant total == Sum(draw, n)
    {
      total := total + draw(n);
    }
    r := Roll(total + d.modifier);
  }

  /** The for-else of dice.py:38-42: does any entry of `POSSIBLE_DICES` occur in `p`? */
  method DiceListed(p: string) returns (found: bool)
    ensures found == ContainsPossibleDice(p)
  {
    found := false;
    var i := 0;
    while i < |PossibleDices|
      invariant i <= |PossibleDices|
      invariant !found ==> forall j :: 0 <= j < i ==> !IsSubstring(PossibleDices[j], p)
      invariant found ==> ContainsPossibleDice(p)
    {
      if IsSubstring(PossibleDices[i], p) {
        found := true;
        break;
      }
      i := i + 1;
    }
  }

  /** What is left after `x, code = code.split("D")` when the count has no
      sign: the face digits, at most one sign and digits after it. */
  predicate RestShape(rest: string)
  {
    AllAllowed(rest) && 'D' !in rest && SignCount(rest) <= 1 &&
    (rest != [] ==> !IsSign(rest[|rest| - 1])) && SignFreePrefix(rest) != []
  }

  /** The three ways `ScanPadded` can go, stated on the two halves of
      `split("D")` the way dice.py:42-46 reads them. */
  lemma {:induction false} PaddedCases(p: string)
    requires PaddedShape(p)
    ensures |Split(p, 'D')| == 2
    ensures var halves := Split(p, 'D');
      !ContainsPossibleDice(p) ==>
        ScanPadded(p) == Fail("Not allowed dice: D" + Split(Replace(halves[1], '-', "+"), '+')[0])
    ensures var x := Split(p, 'D')[0];
      ContainsPossibleDice(p) && ('+' in x || '-' in x) ==> ScanPadded(p) == Fail("Wrong dice code!")
    ensures var x, rest := Split(p, 'D')[0], Split(p, 'D')[1];
      var y := SignFreePrefix(rest);
      ContainsPossibleDice(p) && !('+' in x || '-' in x) ==>
        AllDigits(x) && RestShape(rest) &&
        ScanPadded(p) == Ok(Dice(if x == [] then 1 else DigitsValue(x), DigitsValue(y), ModifierValue(rest[|y|..])))
  {
    SplitFacts(p);
    if !ContainsPossibleDice(p) {
      PaddedNotListed(p);
    } else if !('+' in Split(p, 'D')[0] || '-' in Split(p, 'D')[0]) {
      PaddedListed(p);
    }
  }

  /** No entry of `POSSIBLE_DICES` in the code: the message names the text
      between the `D` and the first sign. */
  lemma {:induction false} PaddedNotListed(p: string)
    requires PaddedShape(p) && !ContainsPossibleDice(p)
    ensures ScanPadded(p) == Fail("Not allowed dice: D" + Split(Replace(Split(p, 'D')[1], '-', "+"), '+')[0])
  {
    SplitFacts(p);
    SignFreePrefixBySplit(AfterD(p));
  }

  /** A listed die and a count without a sign: the count is digits and the
      rest has the shape the `|` marking works on. */
  lemma {:induction false} PaddedListed(p: string)
    requires PaddedShape(p) && ContainsPossibleDice(p)
    requires NoSign(p[..IndexOf(p, 'D')])
    ensures AllDigits(p[..IndexOf(p, 'D')]) && RestShape(AfterD(p))
  {
    SplitFacts(p);
    FoundDiceIsAfterD(p);
    DigitsOnly(p[..IndexOf(p, 'D')]);
  }

  /** dice.py:47-54: mark the sign with `|`, split there and read both
      halves with `int()`, or, when that raises `ValueError`, read the whole
      text as the face count with modifier 0. */
  method FacesAndModifier(rest: string) returns (faces: int, modifier: int)
    requires RestShape(rest)
    ensures faces == DigitsValue(SignFreePrefix(rest))
    ensures modifier == ModifierValue(rest[|SignFreePrefix(rest)|..])
  {
    var marked := Replace(Replace(rest, '+', "|+"), '-', "|-");
    var parts := Split(marked, '|');
    MarkedParts(rest);
    if |parts| == 2 && PyInt(parts[0]).Some? && PyInt(parts[1]).Some? {
      faces, modifier := PyInt(parts[0]).value, PyInt(parts[1]).value;
    } else {
      faces, modifier := PyInt(marked).value, 0;
    }
  }

  /** Which way the `try` of dice.py:48-54 goes: with no sign, `split("|")`
      gives one part and the whole text is the face count; with a sign, both
      parts are numbers, the face count and the signed modifier. */
  lemma {:induction false} MarkedParts(rest: string)
    requires RestShape(rest)
    ensures var marked := Replace(Replace(rest, '+', "|+"), '-', "|-");
      var y := SignFreePrefix(rest);
      FirstSign(rest) == |rest| ==>
        |Split(marked, '|')| == 1 && PyInt(marked) == Some(DigitsValue(y)) && ModifierValue(rest[|y|..]) == 0
    ensures var parts := Split(Replace(Replace(rest, '+', "|+"), '-', "|-"), '|');
      var y := SignFreePrefix(rest);
      FirstSign(rest) < |rest| ==>
        |parts| == 2 && PyInt(parts[0]) == Some(DigitsValue(y)) &&
        PyInt(parts[1]) == Some(ModifierValue(rest[|y|..]))
  {
    if FirstSign(rest) == |rest| {
      MarkedNoSign(rest);
    } else {
      MarkedOneSign(rest);
    }
  }

  /** No sign: nothing is marked and the whole text is the face count. */
  lemma {:induction false} MarkedNoSign(rest: string)
    requires RestShape(rest) && FirstSign(rest) == |rest|
    ensures var marked := Replace(Replace(rest, '+', "|+"), '-', "|-");
      |Split(marked, '|')| == 1 && PyInt(marked) == Some(DigitsValue(SignFreePrefix(rest))) &&
      ModifierValue(rest[|SignFreePrefix(rest)|..]) == 0
  {
    NoBar(rest);
    MarkSigns(rest);
    var y := SignFreePrefix(rest);
    DigitsOnly(y);
    assert y == rest && rest[|y|..] == [];
  }

  /** One sign: the marked text splits into the face digits and the signed
      modifier, and `int()` reads both. */
  lemma {:induction false} MarkedOneSign(rest: string)
    requires RestShape(rest) && FirstSign(rest) < |rest|
    ensures var parts := Split(Replace(Replace(rest, '+', "|+"), '-', "|-"), '|');
      var y := SignFreePrefix(rest);
      |parts| == 2 && PyInt(parts[0]) == Some(DigitsValue(y)) &&
      PyInt(parts[1]) == Some(ModifierValue(rest[|y|..]))
  {
    NoBar(rest);
    MarkSigns(rest);
    var y := SignFreePrefix(rest);
    DigitsOnly(y);
    var j := FirstSign(rest);
    ModifierDigits(rest);
    var t := rest[j..];
    assert t[1..] == rest[j + 1..];
    assert PyInt(y) == Some(DigitsValue(y));
    assert PyInt(t) == Some(ModifierValue(t));
  }

  /** A dice code holds no `|`. */
  lemma NoBar(s: string)
    requires AllAllowed(s)
    ensures '|' !in s
  {
    forall i | 0 <= i < |s|
      ensures s[i] != '|'
    {
      assert IsDiceChar(s[i]);
    }
  }

  /** Behind the only sign of `rest` come one or more digits. */
  lemma {:induction false} ModifierDigits(rest: string)
    requires AllAllowed(rest) && 'D' !in rest && SignCount(rest) <= 1
    requires rest != [] ==> !IsSign(rest[|rest| - 1])
    requires FirstSign(rest) < |rest|
    ensures |rest| > FirstSign(rest) + 1 && AllDigits(rest[FirstSign(rest) + 1..])
  {
    SignsAfterOnlySign(rest);
    var j := FirstSign(rest);
    var t := rest[j + 1..];
    forall i | 0 <= i < |t|
      ensures IsDigit(t[i])
    {
      assert t[i] == rest[j + 1 + i] && IsDiceChar(rest[j + 1 + i]);
      assert rest[j + 1 + i] in rest;
    }
  }

  /** What a code of this shape looks like around its `D`: `split("D")` gives
      the text before and after it, and after it come no `D`, at most one
      sign and no sign at the end. */
  lemma {:induction false} SplitFacts(p: string)
    requires PaddedShape(p)
    ensures IndexOf(p, 'D') < |p|
    ensures Split(p, 'D') == [p[..IndexOf(p, 'D')], AfterD(p)]
    ensures AllAllowed(AfterD(p)) && 'D' !in AfterD(p)
    ensures AllAllowed(p[..IndexOf(p, 'D')])
    ensures SignCount(AfterD(p)) <= 1
    ensures AfterD(p) != [] ==> !IsSign(AfterD(p)[|AfterD(p)| - 1])
  {
    SplitOnce(p, 'D');
    var d := IndexOf(p, 'D');
    OccurrencesAt(p, d + 1, 'D');
    OccurrencesAt(p, d + 1, '+');
    OccurrencesAt(p, d + 1, '-');
    assert p[..d + 1][d] == 'D';
    AllowedSlices(p, d);
    AllowedSlices(p, d + 1);
  }

  /** The two sides of a cut through an allowed text are allowed. */
  lemma AllowedSlices(p: string, i: nat)
    requires AllAllowed(p) && i <= |p|
    ensures AllAllowed(p[..i]) && AllAllowed(p[i..])
  {
    assert forall j :: 0 <= j < |p| - i ==> p[i..][j] == p[i + j];
  }

  /** The `Not allowed dice` message: `split('+')[0]` after `replace('-', '+')`
      is the text up to the first sign. */
  lemma {:induction false} SignFreePrefixBySplit(t: string)
    ensures Split(Replace(t, '-', "+"), '+')[0] == SignFreePrefix(t)
  {
    var u := Replace(t, '-', "+");
    var j := FirstSign(t);
    forall k | 0 <= k < |t|
      ensures |u| == |t| && u[k] == if t[k] == '-' then '+' else t[k]
    {
      ReplaceCharAt(t, '-', '+', k);
    }
    if t == [] {
      assert u == [];
    }
    assert |u| == |t|;
    assert IndexOf(u, '+') == j;
    SplitHead(u, '+');
    assert u[..j] == t[..j];
  }

  /** The `replace`/`split("|")` of dice.py:47-49 on a face-and-modifier text
      with at most one sign: one part without a sign, else the text before the
      sign and the text from the sign on. */
  lemma {:induction false} MarkSigns(rest: string)
    requires '|' !in rest && SignCount(rest) <= 1
    ensures var marked := Replace(Replace(rest, '+', "|+"), '-', "|-");
      var j := FirstSign(rest);
      if j == |rest| then marked == rest && Split(marked, '|') == [rest]
      else Split(marked, '|') == [rest[..j], rest[j..]]
  {
    var j := FirstSign(rest);
    if j == |rest| {
      assert '+' !in rest && '-' !in rest;
      assert Split(rest, '|') == [rest];
    } else {
      SignsAfterOnlySign(rest);
      var a, c, b := rest[..j], rest[j], rest[j + 1..];
      assert rest == a + [c] + b && rest[j..] == [c] + b;
      assert '|' !in a && '|' !in b;
      MarkOneSign(a, c, b);
    }
  }

  lemma {:induction false} MarkOneSign(a: string, c: char, b: string)
    requires '|' !in a && '|' !in b && NoSign(a) && NoSign(b) && IsSign(c)
    ensures Split(Replace(Replace(a + [c] + b, '+', "|+"), '-', "|-"), '|') == [a, [c] + b]
  {
    assert '+' !in a && '+' !in b && '-' !in a && '-' !in b;
    MarkSign(a, c, b);
    SplitAround(a, '|', [c] + b);
  }

  /** Marking the only sign puts a `|` in front of it. */
  lemma MarkSign(a: string, c: char, b: string)
    requires '+' !in a && '+' !in b && '-' !in a && '-' !in b && IsSign(c)
    ensures Replace(Replace(a + [c] + b, '+', "|+"), '-', "|-") == a + ['|'] + ([c] + b)
  {
    if c == '+' {
      ReplaceAround(a, '+', b, '+', "|+");
    } else {
      ReplaceAround(a, '-', b, '-', "|-");
    }
    MarkedAround(a, c, b);
  }

  /** The marked text regrouped around the `|`. */
  lemma MarkedAround(a: string, c: char, b: string)
    ensures a + ['|', c] + b == a + ['|'] + ([c] + b)
  {
  }

  /** Splitting at the only separator gives the two sides. */
  lemma {:induction false} SplitAround(a: string, sep: char, b: string)
    requires sep !in a && sep !in b
    ensures Split(a + [sep] + b, sep) == [a, b]
  {
    var s := a + [sep] + b;
    assert s[|a|] == sep;
    OccurrencesAppend(a + [sep], b, sep);
    OccurrencesAppend(a, [sep], sep);
    SplitOnce(s, sep);
    assert s[..|a|] == a && s[|a| + 1..] == b;
  }

  /** `replace` touches only the one place where the target occurs. */
  lemma {:induction false} ReplaceAround(a: string, c: char, b: string, target: char, repl: string)
    requires target !in a && target !in b
    ensures Replace(a + [c] + b, target, repl) == a + (if c == target then repl else [c]) + b
  {
    ReplaceAppend(a + [c], b, target, repl);
    ReplaceAppend(a, [c], target, repl);
    ReplaceSingle(c, target, repl);
  }

  /** In a text with one `D`, an entry of `POSSIBLE_DICES` can only occur at
      that `D`. */
  lemma {:induction false} FoundDiceIsAfterD(p: string)
    requires Occurrences(p, 'D') == 1 && ContainsPossibleDice(p)
    ensures HasFacePrefix(AfterD(p))
    ensures AfterD(p) != [] && IsDigit(AfterD(p)[0])
  {
    var k :| 0 <= k < |PossibleDices| && IsSubstring(PossibleDices[k], p);
    SubstringAt(PossibleDices[k], p);
    var i :| 0 <= i <= |p| && PossibleDices[k] <= p[i..];
    PossibleDicesShape(k);
    var f := PossibleFaces[k];
    DAtOnlyD(p, f, i);
    assert 0 <= k < |PossibleFaces| && PossibleFaces[k] <= AfterD(p);
  }

  /** A face count right after the `D` is an entry of `POSSIBLE_DICES` in the code. */
  lemma {:induction false} DiceAtD(code: string, c: string, rest: string, k: nat)
    requires IndexOf(code, 'D') == |c| < |code| && AfterD(code) == rest
    requires k < |PossibleFaces| && PossibleFaces[k] <= rest
    ensures ContainsPossibleDice(code)
  {
    PossibleDicesShape(k);
    var g := PossibleFaces[k];
    forall j | 0 <= j < |"D" + g|
      ensures ("D" + g)[j] == code[|c|..][j]
    {
      if j > 0 {
        assert ("D" + g)[j] == g[j - 1] == rest[j - 1] == code[|c| + j];
      }
    }
    SubstringAt(PossibleDices[k], code);
    assert PossibleDices[k] <= code[|c|..];
  }

  /** A `D` followed by `f` inside a text with one `D` puts `f` right after
      that `D`. */
  lemma {:induction false} DAtOnlyD(p: string, f: string, i: nat)
    requires Occurrences(p, 'D') == 1 && i <= |p| && "D" + f <= p[i..]
    ensures f <= AfterD(p)
  {
    assert p[i..][0] == 'D';
    OnlyOccurrence(p, 'D', i);
    assert AfterD(p) == p[i + 1..];
    forall j | 0 <= j < |f|
      ensures f[j] == p[i + 1 + j]
    {
      assert f[j] == ("D" + f)[j + 1] == p[i..][j + 1];
    }
  }

  /** The only occurrence of a character that occurs once is its first. */
  lemma {:induction false} OnlyOccurrence(s: string, c: char, i: nat)
    requires Occurrences(s, c) == 1 && i < |s| && s[i] == c
    ensures i == IndexOf(s, c)
  {
    var d := IndexOf(s, c);
    if d < i {
      assert s == s[..i] + s[i..];
      assert s[..i][d] == c && s[i..][0] == c;
      OccurrencesAppend(s[..i], s[i..], c);
      assert false;
    }
  }

  /** The first check of dice.py:26-29: a character outside the alphabet
      is reported, whatever else is wrong with the code, and no other check
      gives a message of that shape. */
  lemma ScanRejectsChar(code: string)
    ensures FirstNotAllowed(code) < |code| ==>
      ScanParse(code) == Fail("Not allowed char: " + [code[FirstNotAllowed(code)]])
    ensures ScanParse(code).Fail? && CharMessage(ScanParse(code).msg) <==> FirstNotAllowed(code) < |code|
  {
    var bad := FirstNotAllowed(code);
    if bad < |code| {
      MessageShapes(code[bad], []);
    } else {
      AllowedNoCharMessage(code);
    }
  }

  /** Past the alphabet check no message names a character. */
  lemma AllowedNoCharMessage(code: string)
    requires FirstNotAllowed(code) == |code|
    ensures ScanParse(code).Fail? ==> !CharMessage(ScanParse(code).msg)
  {
    if Occurrences(code, 'D') == 1 && SignCount(code) <= 1 {
      assert ScanParse(code) == ScanPadded(Padded(code));
      PaddedMessages(Padded(code));
    }
  }

  /** The messages of the dice search and the count check. */
  lemma PaddedMessages(p: string)
    ensures ScanPadded(p).Fail? ==> !CharMessage(ScanPadded(p).msg)
  {
    MessageShapes('D', SignFreePrefix(AfterD(p)));
  }

  /** dice.py:30-31: no `D` after an allowed alphabet, and only that. */
  lemma ScanNoDice(code: string)
    ensures ScanParse(code) == Fail("No dice specified!") <==> AllAllowed(code) && 'D' !in code
  {
  }

  /** dice.py:32-33: a second `D`, once the alphabet is right. */
  lemma ScanManyD(code: string)
    ensures ScanParse(code) == Fail("Only one 'D' is allowed!") <==> AllAllowed(code) && Occurrences(code, 'D') > 1
  {
    DiceMessageStart(SignFreePrefix(AfterD(Padded(code))));
  }

  /** dice.py:34-35: a second sign, once there is exactly one `D`. */
  lemma ScanManySigns(code: string)
    ensures ScanParse(code) == Fail("Only one modifier is allowed!") <==>
      AllAllowed(code) && Occurrences(code, 'D') == 1 && SignCount(code) > 1
  {
    DiceMessageStart(SignFreePrefix(AfterD(Padded(code))));
  }

  /** dice.py:44-45: a sign in the count, checked only after the dice search
      has found an entry of `POSSIBLE_DICES`. */
  lemma {:induction false} ScanWrongCode(code: string)
    ensures ScanParse(code) == Fail("Wrong dice code!") <==>
      AllAllowed(code) && Occurrences(code, 'D') == 1 && SignCount(code) <= 1 &&
      ContainsPossibleDice(Padded(code)) && !NoSign(code[..IndexOf(code, 'D')])
  {
    var p := Padded(code);
    DiceMessageStart(SignFreePrefix(AfterD(p)));
    if AllAllowed(code) && Occurrences(code, 'D') == 1 {
      PaddedPrefix(code);
    }
  }

  /** dice.py:38-42: the for-else search over `POSSIBLE_DICES` finds no entry,
      which happens exactly when no allowed face count follows the one `D`;
      the message quotes the text after the `D` up to the first sign. */
  lemma {:induction false} ScanNotListed(code: string)
    ensures ScanParse(code) == Fail("Not allowed dice: D" + SignFreePrefix(AfterD(code))) <==>
      AllAllowed(code) && Occurrences(code, 'D') == 1 && SignCount(code) <= 1 &&
      !HasFacePrefix(AfterD(code))
  {
    var s := SignFreePrefix(AfterD(code));
    DiceMessageStart(s);
    var bad := FirstNotAllowed(code);
    if bad < |code| {
      MessageShapes(code[bad], s);
    } else if Occurrences(code, 'D') == 1 && SignCount(code) <= 1 {
      PaddedDiceMessage(code);
    }
  }

  /** Past the first three checks, the dice search decides the message. */
  lemma {:induction false} PaddedDiceMessage(code: string)
    requires Occurrences(code, 'D') == 1
    ensures ScanPadded(Padded(code)) == Fail("Not allowed dice: D" + SignFreePrefix(AfterD(code))) <==>
      !HasFacePrefix(AfterD(code))
  {
    var p := Padded(code);
    PaddedCounts(code);
    PaddedAfterD(code);
    ListedIffFacePrefix(p);
    DiceMessageStart(SignFreePrefix(AfterD(p)));
  }

  /** With one `D`, the search over `POSSIBLE_DICES` succeeds exactly when an
      allowed face count follows that `D`. */
  lemma {:induction false} ListedIffFacePrefix(p: string)
    requires Occurrences(p, 'D') == 1
    ensures ContainsPossibleDice(p) <==> HasFacePrefix(AfterD(p))
  {
    if ContainsPossibleDice(p) {
      FoundDiceIsAfterD(p);
    }
    if HasFacePrefix(AfterD(p)) {
      var k :| 0 <= k < |PossibleFaces| && PossibleFaces[k] <= AfterD(p);
      assert 'D' in p;
      DiceAtD(p, p[..IndexOf(p, 'D')], AfterD(p), k);
    }
  }

  /** Padding changes neither the quoted text after the `D` nor whether an
      allowed face count follows it. */
  lemma {:induction false} PaddedAfterD(code: string)
    requires Occurrences(code, 'D') == 1
    ensures SignFreePrefix(AfterD(Padded(code))) == SignFreePrefix(AfterD(code))
    ensures HasFacePrefix(AfterD(Padded(code))) <==> HasFacePrefix(AfterD(code))
  {
    if Padded(code) != code {
      var t := AfterD(code);
      PaddedTail(code);
      SignFreePrefixUnique(SignFreePrefix(t), t + "0");
      FacePrefixPadded(t);
    }
  }

  /** When padding adds a `0`, it adds it after the text that follows the
      `D`, and that text ends with the sign. */
  lemma {:induction false} PaddedTail(code: string)
    requires Occurrences(code, 'D') == 1 && Padded(code) != code
    ensures AfterD(code) != [] && IsSign(AfterD(code)[|AfterD(code)| - 1])
    ensures AfterD(Padded(code)) == AfterD(code) + "0"
  {
    PaddedPrefix(code);
    var d := IndexOf(code, 'D');
    assert code[d] == 'D';
    assert (code + "0")[d + 1..] == code[d + 1..] + "0";
  }

  /** A `0` after a closing sign never extends an allowed face count, which
      is all digits. */
  lemma {:induction false} FacePrefixPadded(t: string)
    requires t != [] && IsSign(t[|t| - 1])
    ensures HasFacePrefix(t + "0") <==> HasFacePrefix(t)
  {
    if HasFacePrefix(t + "0") {
      var k :| 0 <= k < |PossibleFaces| && PossibleFaces[k] <= t + "0";
      PossibleDicesShape(k);
      var g := PossibleFaces[k];
      if |t| <= |g| {
        SignInsidePrefix(g, t + "0", |t| - 1);
        assert false;
      }
      assert g <= t;
    }
    if HasFacePrefix(t) {
      var k :| 0 <= k < |PossibleFaces| && PossibleFaces[k] <= t;
      assert PossibleFaces[k] <= t + "0";
    }
  }

  /** A prefix of `u` that is all digits stops before any sign of `u`. */
  lemma SignInsidePrefix(g: string, u: string, i: nat)
    requires g <= u && i < |g| && i < |u|
    ensures AllDigits(g) ==> !IsSign(u[i])
  {
    assert g[i] == u[i];
  }

  /** Padding leaves the count before the `D` alone. */
  lemma {:induction false} PaddedPrefix(code: string)
    requires Occurrences(code, 'D') == 1
    ensures IndexOf(Padded(code), 'D') == IndexOf(code, 'D') < |code|
    ensures Padded(code)[..IndexOf(code, 'D')] == code[..IndexOf(code, 'D')]
  {
    assert 'D' in code;
    if Padded(code) != code {
      IndexOfBefore(code, "0", 'D');
    }
  }

  /** A sign at the end of a code reads as that sign followed by `0`: the
      padding of dice.py:36-37 makes both codes the same before the dice
      search. */
  lemma {:induction false} ScanTrailingSign(code: string)
    requires code != [] && IsSign(code[|code| - 1])
    ensures ScanParse(code + "0") == ScanParse(code)
  {
    var code0 := code + "0";
    var bad := FirstNotAllowed(code);
    if bad < |code| {
      assert code0[bad] == code[bad];
      assert FirstNotAllowed(code0) == bad;
    } else {
      assert AllAllowed(code0);
      PaddedCounts(code);
      assert Padded(code0) == code0 == Padded(code);
    }
  }
}
