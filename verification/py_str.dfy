/** The Python string builtins the dice parsers use: `str.count`,
    `str.split`, `str.replace`, the `in` operator on strings and `int()`,
    each restricted to the one-character forms the parsers call. `IndexOf`
    and `LastIndexOf` (Python's `str.find` and `str.rfind`) are not called
    by the parsers; they serve to state `split` and the regular-expression
    match. */
module PyStr {

  datatype Option<T> = None | Some(value: T)

  predicate IsDigit(c: char) { '0' <= c <= '9' }

  predicate IsSign(c: char) { c == '+' || c == '-' }

  predicate AllDigits(s: string) { forall i :: 0 <= i < |s| ==> IsDigit(s[i]) }

  predicate NoSign(s: string) { forall i :: 0 <= i < |s| ==> !IsSign(s[i]) }

  /** `s.count(c)` */
  function Occurrences(s: string, c: char): (n: nat)
    ensures n <= |s|
    ensures n == 0 <==> c !in s
  {
    if s == [] then 0 else (if s[0] == c then 1 else 0) + Occurrences(s[1..], c)
  }

  lemma {:induction false} OccurrencesAppend(a: string, b: string, c: char)
    ensures Occurrences(a + b, c) == Occurrences(a, c) + Occurrences(b, c)
  {
    if a == [] {
      assert a + b == b;
    } else {
      assert (a + b)[1..] == a[1..] + b;
      OccurrencesAppend(a[1..], b, c);
    }
  }

  /** Counting on both sides of a cut. */
  lemma OccurrencesAt(s: string, i: nat, c: char)
    requires i <= |s|
    ensures Occurrences(s, c) == Occurrences(s[..i], c) + Occurrences(s[i..], c)
  {
    assert s == s[..i] + s[i..];
    OccurrencesAppend(s[..i], s[i..], c);
  }

  /** `s.find(c)`, except that a missing `c` gives `|s|` rather than -1. */
  function IndexOf(s: string, c: char): (i: nat)
    ensures i <= |s|
    ensures i < |s| ==> s[i] == c
    ensures forall j :: 0 <= j < i ==> s[j] != c
  {
    if s == [] || s[0] == c then 0 else 1 + IndexOf(s[1..], c)
  }

  /** Searching past a text that lacks `c`. */
  lemma {:induction false} IndexOfAfter(a: string, b: string, c: char)
    requires c !in a
    ensures IndexOf(a + b, c) == |a| + IndexOf(b, c)
  {
    if a != [] {
      assert (a + b)[1..] == a[1..] + b;
      IndexOfAfter(a[1..], b, c);
    } else {
      assert a + b == b;
    }
  }

  /** Appending after the first `c` moves nothing before it. */
  lemma {:induction false} IndexOfBefore(a: string, b: string, c: char)
    requires c in a
    ensures IndexOf(a + b, c) == IndexOf(a, c)
    ensures (a + b)[..IndexOf(a, c)] == a[..IndexOf(a, c)]
  {
    var i := IndexOf(a, c);
    assert (a + b)[i] == c;
    assert forall j :: 0 <= j < i ==> (a + b)[j] == a[j];
  }

  /** `s.rfind(c)`: the last position of `c`, or -1. */
  function LastIndexOf(s: string, c: char): (i: int)
    ensures -1 <= i < |s|
    ensures 0 <= i ==> s[i] == c
    ensures forall j :: i < j < |s| ==> s[j] != c
  {
    if s == [] then -1
    else if s[|s| - 1] == c then |s| - 1
    else LastIndexOf(s[..|s| - 1], c)
  }

  /** The position of the first '+' or '-' in `s`, or `|s|`. */
  function FirstSign(s: string): (i: nat)
    ensures i <= |s|
    ensures i < |s| ==> IsSign(s[i])
    ensures forall j :: 0 <= j < i ==> !IsSign(s[j])
  {
    if s == [] || IsSign(s[0]) then 0 else 1 + FirstSign(s[1..])
  }

  /** The longest prefix of `s` that holds no sign. */
  function SignFreePrefix(s: string): (p: string)
    ensures p <= s && NoSign(p)
    ensures |p| < |s| ==> IsSign(s[|p|])
  {
    s[..FirstSign(s)]
  }

  /** A sign-free prefix that stops at a sign or at the end is the longest one. */
  lemma SignFreePrefixUnique(p: string, s: string)
    requires p <= s && NoSign(p) && (|p| < |s| ==> IsSign(s[|p|]))
    ensures p == SignFreePrefix(s)
  {
  }

  /** `p in s` for two strings. */
  predicate IsSubstring(p: string, s: string)
  {
    p <= s || (s != [] && IsSubstring(p, s[1..]))
  }

  lemma {:induction false} SubstringAt(p: string, s: string)
    ensures IsSubstring(p, s) <==> exists i :: 0 <= i <= |s| && p <= s[i..]
  {
    if IsSubstring(p, s) {
      if !(p <= s) {
        SubstringAt(p, s[1..]);
        var i :| 0 <= i <= |s[1..]| && p <= s[1..][i..];
        assert s[1..][i..] == s[i + 1..];
      } else {
        assert s[0..] == s;
      }
    }
    if exists i :: 0 <= i <= |s| && p <= s[i..] {
      var i :| 0 <= i <= |s| && p <= s[i..];
      if i > 0 {
        assert s[1..][i - 1..] == s[i..];
        SubstringAt(p, s[1..]);
      } else {
        assert s[0..] == s;
      }
    }
  }

  /** `sep.join(parts)` */
  function Join(parts: seq<string>, sep: string): string
  {
    if |parts| == 0 then ""
    else if |parts| == 1 then parts[0]
    else parts[0] + sep + Join(parts[1..], sep)
  }

  /** `s.split(sep)` for a one-character separator: one part more than there
      are separators, none of them holding the separator, and joining them
      with it gives `s` back. */
  function Split(s: string, sep: char): (parts: seq<string>)
    ensures |parts| == Occurrences(s, sep) + 1
    ensures forall k :: 0 <= k < |parts| ==> sep !in parts[k]
    ensures Join(parts, [sep]) == s
    decreases |s|
  {
    var i := IndexOf(s, sep);
    if i == |s| then [s]
    else
      var rest := Split(s[i + 1..], sep);
      assert s == s[..i] + [sep] + s[i + 1..];
      OccurrencesAppend(s[..i] + [sep], s[i + 1..], sep);
      OccurrencesAppend(s[..i], [sep], sep);
      assert ([s[..i]] + rest)[1..] == rest;
      [s[..i]] + rest
  }

  lemma SplitHead(s: string, sep: char)
    ensures Split(s, sep)[0] == s[..IndexOf(s, sep)]
  {
  }

  /** With exactly one separator, `split` gives the text before and after it. */
  lemma SplitOnce(s: string, sep: char)
    requires Occurrences(s, sep) == 1
    ensures IndexOf(s, sep) < |s|
    ensures Split(s, sep) == [s[..IndexOf(s, sep)], s[IndexOf(s, sep) + 1..]]
  {
    var i := IndexOf(s, sep);
    assert s == s[..i] + [sep] + s[i + 1..];
    OccurrencesAppend(s[..i] + [sep], s[i + 1..], sep);
    OccurrencesAppend(s[..i], [sep], sep);
  }

  /** `s.replace(target, repl)` for a one-character `target`. */
  function Replace(s: string, target: char, repl: string): (r: string)
    ensures target !in s ==> r == s
  {
    if s == [] then "" else (if s[0] == target then repl else [s[0]]) + Replace(s[1..], target, repl)
  }

  lemma {:induction false} ReplaceAppend(a: string, b: string, target: char, repl: string)
    ensures Replace(a + b, target, repl) == Replace(a, target, repl) + Replace(b, target, repl)
  {
    if a == [] {
      assert a + b == b;
    } else {
      assert (a + b)[1..] == a[1..] + b;
      ReplaceAppend(a[1..], b, target, repl);
    }
  }

  /** `replace` is `repl.join(s.split(target))`, the identity Python documents. */
  lemma {:induction false} ReplaceIsJoinOfSplit(s: string, target: char, repl: string)
    ensures Replace(s, target, repl) == Join(Split(s, target), repl)
    decreases |s|
  {
    var i := IndexOf(s, target);
    if i < |s| {
      var head, tail := s[..i], s[i + 1..];
      ReplaceAtFirst(s, target, repl);
      ReplaceIsJoinOfSplit(tail, target, repl);
      JoinCons(head, Split(tail, target), repl);
    }
  }

  /** `replace` up to the first occurrence of its target. */
  lemma {:induction false} ReplaceAtFirst(s: string, target: char, repl: string)
    requires IndexOf(s, target) < |s|
    ensures var i := IndexOf(s, target);
      Replace(s, target, repl) == s[..i] + repl + Replace(s[i + 1..], target, repl)
  {
    var i := IndexOf(s, target);
    var head, tail := s[..i], s[i + 1..];
    CutAt(s, i);
    ReplaceAppend(head + [target], tail, target, repl);
    ReplaceAppend(head, [target], target, repl);
    ReplaceSingle(target, target, repl);
  }

  /** `replace` on a one-character text. */
  lemma ReplaceSingle(c: char, target: char, repl: string)
    ensures Replace([c], target, repl) == if c == target then repl else [c]
  {
    assert [c][1..] == [];
  }

  /** A text is what precedes position `i`, the character there and what follows. */
  lemma CutAt(s: string, i: nat)
    requires i < |s|
    ensures s == s[..i] + [s[i]] + s[i + 1..]
  {
    assert s == s[..i] + s[i..];
    assert s[i..] == [s[i]] + s[i + 1..];
  }

  /** Joining a part in front of a non-empty list of parts. */
  lemma JoinCons(head: string, rest: seq<string>, sep: string)
    requires |rest| > 0
    ensures Join([head] + rest, sep) == head + sep + Join(rest, sep)
  {
    assert ([head] + rest)[1..] == rest;
  }

  /** Replacing one character with another keeps every position. */
  lemma {:induction false} ReplaceCharAt(s: string, target: char, repl: char, k: nat)
    requires k < |s|
    ensures |Replace(s, target, [repl])| == |s|
    ensures Replace(s, target, [repl])[k] == if s[k] == target then repl else s[k]
  {
    if k > 0 {
      ReplaceCharAt(s[1..], target, repl, k - 1);
    } else if |s| > 1 {
      ReplaceCharAt(s[1..], target, repl, 0);
    }
  }

  /** The value of a run of ASCII digits (0 for the empty run). */
  function DigitsValue(s: string): nat
  {
    if s == [] then 0
    else 10 * DigitsValue(s[..|s| - 1]) + (if IsDigit(s[|s| - 1]) then s[|s| - 1] as int - '0' as int else 0)
  }

  /** Appending digits never lowers a decimal value. */
  lemma {:induction false} DigitsValueExtend(p: string, s: string)
    ensures DigitsValue(p + s) >= DigitsValue(p)
    decreases |s|
  {
    if s != [] {
      var t := p + s;
      assert t[..|t| - 1] == p + s[..|s| - 1];
      DigitsValueExtend(p, s[..|s| - 1]);
    } else {
      assert p + s == p;
    }
  }

  /** `int(s)`: an optional sign followed by one or more ASCII digits is a
      number; anything else raises `ValueError`, here `None`. */
  function PyInt(s: string): (r: Option<int>)
    ensures r.Some? <==> (AllDigits(s) && s != []) || (|s| > 1 && IsSign(s[0]) && AllDigits(s[1..]))
    ensures AllDigits(s) && s != [] ==> r == Some(DigitsValue(s))
    ensures |s| > 1 && IsSign(s[0]) && AllDigits(s[1..]) ==>
              r == Some(if s[0] == '-' then 0 - DigitsValue(s[1..]) else DigitsValue(s[1..]))
  {
    if s == [] then None
    else if IsSign(s[0]) then
      if |s| > 1 && AllDigits(s[1..]) then
        var v: int := DigitsValue(s[1..]);
        Some(if s[0] == '-' then -v else v)
      else None
    else if AllDigits(s) then Some(DigitsValue(s))
    else None
  }
}
