# Dice notation parser and roller

A model of `dice.py`, a small dice roller. It reads a dice code such as `7D12-5`: an optional count,
a `D`, a face count from a fixed list (3, 4, 6, 8, 10, 12, 20, 100) and an optional signed
modifier. It returns either the rolled total or an error message. There are two independent
implementations, and the model keeps them as two separate functions:

- `roll_the_dice` is a hand-written scanner. It first checks the alphabet, the number of `D`s and
  the number of signs. It then pads a trailing sign with `0` and searches the code for an entry of
  `POSSIBLE_DICES` as a substring. After that it splits the code at `D`, marks the sign with `|`,
  and reads the pieces with `int()`.
- `roll_the_dice_re` first checks the alphabet. It then splits the code with the regular expression
  `(.*)D([^\+\-]*)([\+\-]?.*)` (`split_dice_code`) and checks the three groups in its own order.

Both are wrapped by `add_return_var`, which appends ` [<code>]` to an error message.

The project has six modules:

- `PyStr` (`py_str.dfy`): the Python string builtins the code calls. These are `count`, `split`
  and `replace` with a one-character argument, `in` on strings, and `int()`. The module adds
  `IndexOf` and `LastIndexOf` (Python's `find` and `rfind`). The code never calls these; the model
  uses them to state what `split` returns and where the regular expression matches.
- `DiceCore` (`dice_core.dfy`): what both parsers share. This covers `POSSIBLE_DICES`, the
  alphabet, the outcome type, `add_return_var`, and the final sum of the die draws with its bounds.
- `Scan` (`scan.dfy`): `roll_the_dice`.
  - `ScanParse` states which error or which dice the function arrives at.
  - `RollTheDiceUnwrapped`, `RollPadded`, `DiceListed`, `FacesAndModifier` and `RollDice` are the
    function's step-by-step code, with its loops.
  - `RollTheDiceUnwrapped` is proved to arrive at exactly what `ScanParse` says, and `RollPadded`
    at exactly what `ScanPadded` says for the padded code.
  - The other three are each proved against their own specification. `DiceListed` returns
    `ContainsPossibleDice`. `FacesAndModifier` returns `DigitsValue` of the faces and
    `ModifierValue` of the modifier. `RollDice` returns `Evaluate` of the dice.
  - Lemmas state the check order and the padding rule.
- `Regex` (`regex.dfy`): `split_dice_code` and `roll_the_dice_re`.
  - The match of the pattern is stated as a predicate, `GreedyMatch`. `SplitDiceCode` is proved to
    give the one and only match.
  - `ReParse` and `ReGroups` follow the checks of `roll_the_dice_re` in order.
- `DiceNotation` (`notation.dfy`): the notation as a grammar (`Notation`, `Render`, `Decompose`,
  `Meaning`). It has round-trip lemmas, and for each parser the exact set of codes it accepts with
  the dice it builds. It also relates the two parsers to each other.
- `DiceDemo` (`demo.dfy`): demo codes, most of them from the `__main__` block, with the decorated
  outcome of each function.

A die draw is a parameter: `draw(i)` is the value `randint(1, faces)` returns for die `i`.

What the model shows about the two parsers:

- Both accept exactly the well-formed notations whose face digits they allow, and on a code both
  accept they build the same dice.
- `roll_the_dice` allows face digits that START with an allowed face count, because its check is a
  substring search. So `D30` rolls one thirty-sided die, and its faces are always at least 3.
- `roll_the_dice_re` allows only face digits that ARE an allowed face count. So it rejects `D30`
  with `Not allowed dice: D30!`.
- They also disagree on `DD34`, `3D` and `D-`.

The code has no separate minimum or maximum functions. It reads a trailing bare sign as `+0` or
`-0` rather than as an error.

## Model

| member | source | states |
|---|---|---|
| DiceCore.PossibleDicesShape | dice.py:4 | Entry `k` of `POSSIBLE_DICES` is `D` followed by face count `k`. Every face count is a non-empty digit run with no leading zero. |
| DiceCore.FaceCountValue | dice.py:4 | Face count `k`, read as a number, is the `k`-th of 3, 4, 6, 8, 10, 12, 20, 100. |
| DiceCore.FirstNotAllowed | dice.py:26-29 | Gives the first position whose character is not a digit, `D`, `+` or `-`. Every character before it is allowed; it is the length of the code when all are. |
| DiceCore.SignCount | dice.py:34 | The number of `+` and `-` characters is zero exactly when the text has no sign. |
| DiceCore.AddReturnVar | dice.py:7-14 | A rolled total passes through unchanged. An error message keeps its text and gets ` [<argument>]` appended. |
| DiceCore.AddReturnVarInjective | dice.py:7-14 | The decoration loses nothing: two results that decorate to the same value are equal. |
| DiceCore.Evaluate | dice.py:55 | An error passes through. Parsed dice always give a roll, and a count of 0 gives exactly the modifier. |
| DiceCore.SumBounds | dice.py:55 | When every draw lies in `[lo, hi]`, `n` draws sum to between `n*lo` and `n*hi`. |
| DiceCore.RollWithinBounds | dice.py:55 | With every draw in `[1, faces]`, the rolled total lies between `count + modifier` and `count*faces + modifier`. |
| PyStr.Occurrences | dice.py:32 | `str.count`: at most the length, and zero exactly when the character is absent. |
| PyStr.SubstringAt | dice.py:39 | `p in s` holds exactly when `p` is a prefix of some suffix of `s`. |
| PyStr.Split | dice.py:43 | `str.split` with one character gives one part more than there are separators. No part holds the separator, and joining the parts gives the text back. |
| PyStr.SplitOnce | dice.py:43 | With exactly one separator, `split` gives the text before it and the text after it. |
| PyStr.ReplaceIsJoinOfSplit | dice.py:47 | `s.replace(t, r)` equals `r.join(s.split(t))`. |
| PyStr.PyInt | dice.py:46 | `int()` reads an optional sign followed by one or more digits, with the sign applied to the digits' value. Anything else raises. |
| Scan.Padded | dice.py:36-37 | The padded code extends the code by at most one character. It never ends with a sign, and it keeps the alphabet. |
| Scan.PaddedCounts | dice.py:36-37 | Padding adds neither a `D` nor a sign. |
| Scan.ScanParse | dice.py:26-46 | Parsed dice come only from a code with the right alphabet, exactly one `D` and at most one sign. |
| Scan.RollTheDice | dice.py:17-55 | The decorated function returns the roll of the parsed dice, or the error message followed by ` [<code>]`, where `<code>` is the argument as given. |
| Scan.RollTheDiceUnwrapped | dice.py:26-37 | The character loop and the first checks return the first error met. Otherwise they hand on the padded code, and the result equals evaluating `ScanParse`. |
| Scan.RollPadded | dice.py:38-55 | The dice search, the `split("D")`, the count check and the reading of faces and modifier give exactly what `ScanParse` says for the padded code. |
| Scan.DiceListed | dice.py:38-42 | The for-else loop finds a match exactly when some entry of `POSSIBLE_DICES` occurs in the code. |
| Scan.RollDice | dice.py:55 | The summing loop returns the sum of the first `count` draws plus the modifier. |
| Scan.PaddedCases | dice.py:42-46 | The three outcomes of the padded code, stated on the halves of `split("D")`. With no listed dice, the message names the text between the `D` and the first sign. A sign in the count gives `Wrong dice code!`. Otherwise the count is digits, and the dice are the count, the face digits and the modifier. |
| Scan.FacesAndModifier | dice.py:47-54 | The `replace` marking, the split at the mark and the `int()` calls, with their `try`/`except` give the face digits' value and the modifier's value. |
| Scan.MarkedParts | dice.py:47-54 | Without a sign, splitting at the mark gives one part and the `except` branch reads the whole text, with modifier 0. With a sign, it gives two parts and `int()` reads both. So no `int()` call fails. |
| Scan.SignFreePrefixBySplit | dice.py:42 | `split('D')[1].replace('-', '+').split('+')[0]` is the text up to the first sign. |
| Scan.FoundDiceIsAfterD | dice.py:38-42 | In a code with one `D`, a listed die can only be found at that `D`. The text after it then starts with an allowed face count. |
| Scan.DiceAtD | dice.py:38-40 | An allowed face count right after the `D` makes the search over `POSSIBLE_DICES` succeed. |
| Scan.ListedIffFacePrefix | dice.py:38-42 | In a code with one `D`, the search over `POSSIBLE_DICES` succeeds exactly when an allowed face count follows that `D`. |
| Scan.ScanRejectsChar | dice.py:26-29 | A character outside the alphabet is reported first, by name, whatever else is wrong. No other check produces a message of that shape. |
| Scan.ScanNoDice | dice.py:30-31 | `No dice specified!` comes exactly when the alphabet is right and there is no `D`, the empty code included. |
| Scan.ScanManyD | dice.py:32-33 | `Only one 'D' is allowed!` comes exactly when the alphabet is right and there is more than one `D`. |
| Scan.ScanManySigns | dice.py:34-35 | `Only one modifier is allowed!` comes exactly when the alphabet is right, there is one `D`, and there are two or more signs. |
| Scan.ScanWrongCode | dice.py:38-45 | `Wrong dice code!` comes exactly when the earlier checks pass, a listed die is found in the padded code, and the count holds a sign. |
| Scan.ScanNotListed | dice.py:26-42 | `Not allowed dice: D` followed by the text between the `D` and the first sign comes exactly when the alphabet is right, there is one `D`, there is at most one sign, and no allowed face count follows the `D`. A sign in the count does not matter here, because this check comes first. |
| Scan.PaddedDiceMessage | dice.py:36-42 | Once the first three checks pass, the padded code gets the `Not allowed dice` message, quoting the unpadded text after the `D`, exactly when no allowed face count follows the `D`. |
| Scan.PaddedAfterD | dice.py:36-37 | Padding changes neither the text quoted after the `D` up to the first sign, nor whether an allowed face count follows the `D`. |
| Scan.FacePrefixPadded | dice.py:36-40 | A `0` added after a closing sign never completes an allowed face count, because face counts are all digits. |
| Scan.ScanTrailingSign | dice.py:36-37 | A code ending in a sign parses exactly like the same code followed by `0`. |
| Regex.FirstLine | dice.py:63 | What `.*` covers from the start: the longest prefix without a newline. |
| Regex.SplitDiceCode | dice.py:58-65 | With no `D` in the first line (the empty code included), the result is three empty strings. Otherwise it is a greedy match of the pattern. |
| Regex.SplitDiceCodeUnique | dice.py:63 | Any three groups the pattern can match at the start of the code are the ones `split_dice_code` returns. |
| Regex.SplitDiceCodeWhole | dice.py:58-65 | For a code without newlines that holds a `D`, `x + "D" + y + z` is the code, and neither `y` nor `z` holds a `D`. |
| Regex.ReParse | dice.py:78-103 | Parsed dice come only from an allowed alphabet, and their faces are one of the listed face counts. |
| Regex.ReGroups | dice.py:82-103 | The checks on the groups produce faces only from the listed face counts. |
| Regex.ListedFaces | dice.py:84 | `"D" + y in POSSIBLE_DICES` holds exactly when `y` is one of the face counts. |
| Regex.FaceValue | dice.py:84-87 | `int(y)` for a listed `y` is one of 3, 4, 6, 8, 10, 12, 20, 100. |
| Regex.RollTheDiceRe | dice.py:68-103 | The decorated function rolls exactly when `ReParse` succeeds. Otherwise it returns the parse error followed by ` [<code>]`. |
| Regex.ReOkShape | dice.py:81-103 | An accepted code is digits, `D`, a listed face count and an optional sign with digits. Those pieces rebuild the code, and the dice are read off them, with a missing count meaning 1. |
| Regex.ReGroupsOk | dice.py:82-103 | Groups that pass every check are digit runs. The dice are the count (1 if empty), the faces and the modifier. |
| Regex.ReIntCalls | dice.py:87-102 | On the way to a roll, `int(y)`, `int(x)` and `int(z)` never raise, and each reads the value the dice hold. |
| Regex.ReTrailingSign | dice.py:96-97 | A code ending in a sign parses exactly like the same code followed by `0`. A lone sign counts as 0. |
| Regex.ReRejectsChar | dice.py:78-80 | The first character outside `[+\-\dD]` is reported first, by name, whatever else is wrong. No other check produces a message of that shape. |
| Regex.ReNoDice | dice.py:82-83 | `No dice specified!` comes exactly when the alphabet is right and the group after the last `D` is empty, a code without a `D` included. |
| Regex.ReUnlisted | dice.py:84-85 | `Not allowed dice: D<y>!` comes exactly when the alphabet is right and `y` is non-empty but not a listed face count. This check runs before any check on the count. |
| Regex.ReManyD | dice.py:88-89 | `Only one 'D' is allowed!` comes exactly when the faces are listed and the part before the last `D` holds a `D`. |
| Regex.ReWrongCode | dice.py:90-91 | `Wrong dice code!` comes exactly when the faces are listed, the count holds no `D`, and the count holds a sign. |
| Regex.ReManySigns | dice.py:96-100 | `Only one modifier is allowed!` comes exactly when every earlier check passes and the modifier holds two or more signs. This check runs last. |
| Regex.ReGroupsLater | dice.py:88-100 | The three checks after the face check, and exactly when each fires. |
| DiceNotation.RenderDecompose | dice.py:43-54 | Reading a rendered notation back gives the notation. |
| DiceNotation.DecomposeRender | dice.py:43-54 | Take a code with an allowed alphabet, one `D`, at most one sign and no sign before the `D`. It is the rendering of the notation read from it, and that notation is well-formed. |
| DiceNotation.ModifierMeaning | dice.py:96-102 | The value read from a modifier's text is the number the modifier stands for. |
| DiceNotation.Pad | dice.py:36-37 | Padding a notation keeps it well-formed and keeps its count, faces and meaning. It renders as the padded rendering. |
| DiceNotation.DiceInRender | dice.py:38-42 | A rendered notation contains an entry of `POSSIBLE_DICES` exactly when its face digits start with an allowed face count. |
| DiceNotation.ScanRender | dice.py:26-55 | On a well-formed notation, `roll_the_dice` gives its meaning when the face digits start with an allowed face count. Otherwise it gives `Not allowed dice: D<faces>`. |
| DiceNotation.ScanOkIsRender | dice.py:26-55 | A code `roll_the_dice` accepts is a well-formed notation whose faces start with an allowed face count, and the dice are its meaning. |
| DiceNotation.ScanAccepts | dice.py:26-55 | `roll_the_dice` accepts a code exactly when it renders such a notation. |
| DiceNotation.ScanFacesAtLeastThree | dice.py:38-53 | Dice that `roll_the_dice` accepts have at least three faces. |
| DiceNotation.RenderMatch | dice.py:63 | The pattern's groups on a rendered notation are its count, its face digits and its modifier text. |
| DiceNotation.ReRender | dice.py:78-103 | On a well-formed notation, `roll_the_dice_re` gives `No dice specified!` for empty faces, and `Not allowed dice: D<faces>!` for faces that are not listed. Otherwise it gives the notation's meaning. |
| DiceNotation.ReOkIsRender | dice.py:78-103 | A code `roll_the_dice_re` accepts is a well-formed notation with listed faces, and the dice are its meaning. |
| DiceNotation.ReAccepts | dice.py:78-103 | `roll_the_dice_re` accepts a code exactly when it renders a well-formed notation with listed faces. |
| DiceNotation.ParsersAgree | dice.py:68-103 | Wherever `roll_the_dice_re` accepts a code, `roll_the_dice` accepts it too and builds the same dice. |
| DiceNotation.ScanOkReVerdict | dice.py:84-85 | Where `roll_the_dice` accepts a code, `roll_the_dice_re` gives the same dice when the face digits are listed. Otherwise it rejects them with `Not allowed dice: D<faces>!`. |
| DiceNotation.RollsAgree | dice.py:68-103 | Where `roll_the_dice_re` accepts a code, both decorated functions return the same roll for the same draws. |
| DiceDemo.TwoD10Plus10 | dice.py:107 | Both functions roll `2D10+10` as two draws plus 10. |
| DiceDemo.D12Minus1 | dice.py:107 | Both functions roll `D12-1` as one draw minus 1. |
| DiceDemo.ThirtyTwoD3Minus | dice.py:109 | Both functions roll `32D3-` as 32 draws plus 0. |
| DiceDemo.DDThirtyFourScan | dice.py:109 | `roll_the_dice` gives `Only one 'D' is allowed! [DD34]`. |
| DiceDemo.DDThirtyFourRe | dice.py:109 | `roll_the_dice_re` gives `Not allowed dice: D34! [DD34]`. |
| DiceDemo.EmptyCode | dice.py:110 | Both functions give `No dice specified! []` for the empty code. |
| DiceDemo.TwoLowerD8 | dice.py:110 | Both functions give `Not allowed char: d [2d8]`. |
| DiceDemo.SignedCountUnlisted | dice.py:38-45 | `roll_the_dice` gives `Not allowed dice: D7` for `4-3D7`. The unlisted die is reported before the sign in the count. |
| DiceDemo.ScanUnlistedTail | dice.py:38-42 | For a code past the first three checks, when the text after the `D` starts with no allowed face count, the message quotes that text up to the first sign. |
| DiceDemo.SevenD7Plus7Scan | dice.py:111 | `roll_the_dice` gives `Not allowed dice: D7 [7D7+7]`. |
| DiceDemo.SevenD7Plus7Re | dice.py:111 | `roll_the_dice_re` gives `Not allowed dice: D7! [7D7+7]`. |
| DiceDemo.DOneScan | dice.py:111 | `roll_the_dice` gives `Not allowed dice: D1 [D1]`. |
| DiceDemo.DOneRe | dice.py:111 | `roll_the_dice_re` gives `Not allowed dice: D1! [D1]`. |
| DiceDemo.D30Scan | dice.py:38-42 | `roll_the_dice` finds `D3` inside `D30` and rolls one thirty-sided die. |
| DiceDemo.D30Re | dice.py:84-85 | `roll_the_dice_re` rejects `D30` with `Not allowed dice: D30! [D30]`. |
| DiceDemo.ThreeDScan | dice.py:42 | `roll_the_dice` gives `Not allowed dice: D [3D]`. |
| DiceDemo.ThreeDRe | dice.py:82-83 | `roll_the_dice_re` gives `No dice specified! [3D]`. |
| DiceDemo.DMinusScan | dice.py:36-42 | `roll_the_dice` pads `D-` to `D-0` and gives `Not allowed dice: D [D-]`. |
| DiceDemo.DMinusRe | dice.py:82-83 | `roll_the_dice_re` gives `No dice specified! [D-]`. |

## Left out

- `random.randint` (dice.py:1, dice.py:55, dice.py:103) is a foreign random source. Each draw is a
  parameter `draw(i)`. The bounds lemmas require each draw to lie in `[1, faces]`; they do not model
  the distribution.
- The `__main__` block (dice.py:106-114) prints to the console, so it is not modelled. Its codes
  appear as the `DiceDemo` lemmas. Some codes of the list have no lemma:
  - `D6`, `2D3`, `5D8-4` and `2D10-1` roll like the codes that do.
  - `DD100`, `4-3D6`, `+D10`, `2+2`, `2D6+1+2`, `2D10-10+1`, `D8*2` and `2D2` are covered only by
    the general check-order lemmas.
- Python's regular-expression engine (`match`, `search`, `findall`) is not modelled. Each pattern
  the code uses is restated as string functions: the alphabet search as `FirstNotAllowed`, the
  three-group match as `GreedyMatch` and `SplitDiceCode`, and the sign count as `SignCount`.
- ReParse: the alphabet is ASCII only. In Python, `\d` and `int()` also accept non-ASCII decimal
  digits, so `roll_the_dice_re` goes on past a character such as `٣` that the model reports as not
  allowed. `roll_the_dice` rejects it in both the source and the model.
- PyInt: models `int()` on an optional sign and ASCII digits. It does not model the surrounding
  whitespace or the underscores between digits that Python also accepts. Neither can reach it,
  because the alphabet check rejects them first.
- The decorator mechanics (the wrapper closure, the `type(res) is str` dispatch and `str(var)`) are
  a plain function, `AddReturnVar`, over the `Outcome` datatype.
- Python integers of any size are modelled as unbounded `int`/`nat`, which is what Python has.
