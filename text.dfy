/**
  The string operations the exchange models rely on: `str.lower` (on the
  ASCII range), `str.join` and `str.split` with a one-character separator,
  `str.rstrip` of one character, and the position of the first occurrence
  of either of two characters.
 */
module Text {

  predicate IsUpper(c: char) { 'A' <= c <= 'Z' }

  /** `str.lower` on one ASCII character. */
  function LowerChar(c: char): char
  {
    if IsUpper(c) then (c as int + 32) as char else c
  }

  /** `s.lower()`: every upper-case letter replaced, everything else kept. */
  function Lower(s: string): (r: string)
    ensures |r| == |s|
    ensures forall i :: 0 <= i < |r| ==> !IsUpper(r[i])
    ensures forall i :: 0 <= i < |s| && !IsUpper(s[i]) ==> r[i] == s[i]
  {
    if s == [] then [] else [LowerChar(s[0])] + Lower(s[1..])
  }

  lemma {:induction false} LowerAppend(a: string, b: string)
    ensures Lower(a + b) == Lower(a) + Lower(b)
  {
    if a == [] {
      assert a + b == b;
    } else {
      assert (a + b)[0] == a[0] && (a + b)[1..] == a[1..] + b;
      LowerAppend(a[1..], b);
    }
  }

  /** Lowering twice is lowering once. */
  lemma LowerIdempotent(s: string)
    ensures Lower(Lower(s)) == Lower(s)
  {
    var r := Lower(s);
    assert forall i :: 0 <= i < |r| ==> Lower(r)[i] == r[i];
  }

  /** Lowering brings in no character other than a lower-case letter. */
  lemma {:induction false} LowerWithout(s: string, c: char)
    requires c !in s && !IsUpper(c) && !('a' <= c <= 'z')
    ensures c !in Lower(s)
  {
    if s != [] {
      LowerWithout(s[1..], c);
    }
  }

  /** `sep.join(parts)`. */
  function Join(parts: seq<string>, sep: char): string
  {
    if |parts| == 0 then ""
    else if |parts| == 1 then parts[0]
    else parts[0] + [sep] + Join(parts[1..], sep)
  }

  /** `s.split(sep)`: the pieces between occurrences of `sep`, in order. */
  function Split(s: string, sep: char): (parts: seq<string>)
    ensures |parts| >= 1
    ensures forall i :: 0 <= i < |parts| ==> sep !in parts[i]
  {
    if s == [] then [""]
    else
      var rest := Split(s[1..], sep);
      if s[0] == sep then [""] + rest else [[s[0]] + rest[0]] + rest[1..]
  }

  lemma {:induction false} SplitWithout(s: string, sep: char)
    requires sep !in s
    ensures Split(s, sep) == [s]
  {
    if s != [] {
      SplitWithout(s[1..], sep);
      assert [s[0]] + s[1..] == s;
    }
  }

  /** Splitting at one separator splits the two sides independently. */
  lemma {:induction false} SplitAppend(a: string, sep: char, b: string)
    ensures Split(a + [sep] + b, sep) == Split(a, sep) + Split(b, sep)
  {
    if a == [] {
      assert a + [sep] + b == [sep] + b;
      assert ([sep] + b)[1..] == b;
    } else {
      var t := a[1..] + [sep] + b;
      assert a + [sep] + b == [a[0]] + t && a == [a[0]] + a[1..];
      SplitAppend(a[1..], sep, b);
      SplitCons(a[0], t, sep);
      SplitCons(a[0], a[1..], sep);
      var rest, right := Split(a[1..], sep), Split(b, sep);
      if a[0] == sep {
        Associative([""], rest, right);
      } else {
        var first := [[a[0]] + rest[0]];
        HeadTail(rest, right);
        Associative(first, rest[1..], right);
      }
    }
  }

  lemma Associative<T>(x: seq<T>, y: seq<T>, z: seq<T>)
    ensures x + (y + z) == x + y + z
  {
  }

  lemma HeadTail<T>(x: seq<T>, y: seq<T>)
    requires |x| >= 1
    ensures (x + y)[0] == x[0] && (x + y)[1..] == x[1..] + y
  {
  }

  lemma SplitCons(x: char, t: string, sep: char)
    ensures var rest := Split(t, sep);
      Split([x] + t, sep) == if x == sep then [""] + rest else [[x] + rest[0]] + rest[1..]
  {
    assert ([x] + t)[1..] == t;
  }

  /** `sep.join` then `split(sep)` gives the parts back when none holds `sep`. */
  lemma {:induction false} SplitJoin(parts: seq<string>, sep: char)
    requires |parts| >= 1
    requires forall i :: 0 <= i < |parts| ==> sep !in parts[i]
    ensures Split(Join(parts, sep), sep) == parts
  {
    if |parts| == 1 {
      SplitWithout(parts[0], sep);
    } else {
      SplitJoin(parts[1..], sep);
      SplitAppend(parts[0], sep, Join(parts[1..], sep));
      SplitWithout(parts[0], sep);
      assert parts == [parts[0]] + parts[1..];
    }
  }

  /** Every string of the sequence lowered. */
  function LowerEach(parts: seq<string>): (r: seq<string>)
    ensures |r| == |parts|
    ensures forall i :: 0 <= i < |parts| ==> r[i] == Lower(parts[i])
  {
    if parts == [] then [] else [Lower(parts[0])] + LowerEach(parts[1..])
  }

  /** Lowering distributes over a join whose separator is not a letter. */
  lemma {:induction false} LowerJoin(parts: seq<string>, sep: char)
    requires !IsUpper(sep)
    ensures Lower(Join(parts, sep)) == Join(LowerEach(parts), sep)
  {
    if |parts| >= 2 {
      var head, rest := parts[0], Join(parts[1..], sep);
      LowerJoin(parts[1..], sep);
      LowerAppend(head + [sep], rest);
      LowerAppend(head, [sep]);
      assert LowerEach(parts)[1..] == LowerEach(parts[1..]);
    }
  }

  /** `s.rstrip(c)` for a single character `c`. */
  function RStrip(s: string, c: char): (r: string)
    ensures |r| <= |s| && r == s[..|r|]
    ensures r == [] || r[|r| - 1] != c
    ensures forall i :: |r| <= i < |s| ==> s[i] == c
  {
    if |s| > 0 && s[|s| - 1] == c then RStrip(s[..|s| - 1], c) else s
  }

  /** Stripping the end of `a + b` touches `a` only when all of `b` goes. */
  lemma {:induction false} RStripAppend(a: string, b: string, c: char)
    requires RStrip(b, c) != []
    ensures RStrip(a + b, c) == a + RStrip(b, c)
  {
    if |b| > 0 && b[|b| - 1] == c {
      assert (a + b)[..|a + b| - 1] == a + b[..|b| - 1];
      RStripAppend(a, b[..|b| - 1], c);
    }
  }

  /** Stripping a tail made only of `c` leaves a text that does not end in `c`. */
  lemma {:induction false} RStripTail(a: string, b: string, c: char)
    requires a == [] || a[|a| - 1] != c
    requires forall i :: 0 <= i < |b| ==> b[i] == c
    ensures RStrip(a + b, c) == a
  {
    if b == [] {
      assert a + b == a;
    } else {
      assert (a + b)[..|a + b| - 1] == a + b[..|b| - 1];
      RStripTail(a, b[..|b| - 1], c);
    }
  }

  /**
    The index of the first occurrence of `c` or `c'` in `s`, or `|s|`;
    with `c == c'` it is `s.find(c)` for a single character (or `|s|`).
   */
  function FirstIndex(s: string, c: char, c': char): (k: nat)
    ensures k <= |s|
    ensures forall i :: 0 <= i < k ==> s[i] != c && s[i] != c'
    ensures k < |s| ==> s[k] == c || s[k] == c'
  {
    if s == [] || s[0] == c || s[0] == c' then 0 else 1 + FirstIndex(s[1..], c, c')
  }

  lemma FirstIndexAt(a: string, x: char, b: string, c: char, c': char)
    requires forall i :: 0 <= i < |a| ==> a[i] != c && a[i] != c'
    requires x == c || x == c'
    ensures FirstIndex(a + [x] + b, c, c') == |a|
  {
    var s := a + [x] + b;
    assert s[|a|] == x;
  }

  lemma FirstIndexNone(a: string, c: char, c': char)
    requires forall i :: 0 <= i < |a| ==> a[i] != c && a[i] != c'
    ensures FirstIndex(a, c, c') == |a|
  {
  }

  /** The pieces on either side of a separator. */
  lemma AroundSeparator(a: string, x: char, b: string)
    ensures (a + [x] + b)[..|a|] == a
    ensures (a + [x] + b)[|a| + 1..] == b
  {
    var s := a + [x] + b;
    assert s[..|a|] == a;
    assert s[|a| + 1..] == b;
  }

  lemma WholePrefix(a: string)
    ensures a[..|a|] == a
  {
  }
}
