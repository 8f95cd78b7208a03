/** Python's `str` operations that the contractor-name normaliser uses:
    `split(c)[0]`, `rstrip(c)`, `strip()` and `replace(c, '')`.
    Strings are sequences of code points, as in Python 3.

    The functions compute; the `...Spec` lemmas below them state what each
    one returns. */
module PyStr {

  /** `str.isspace()` for one code point: the characters Python's `strip()`
      with no argument removes (ASCII whitespace, the separators U+001C..U+001F,
      NEL, NBSP and the Unicode space separators). */
  predicate IsSpace(c: char) {
    var n := c as int;
    (9 <= n <= 13) || (28 <= n <= 32) || n == 0x85 || n == 0xA0 || n == 0x1680
    || (0x2000 <= n <= 0x200A) || n == 0x2028 || n == 0x2029 || n == 0x202F
    || n == 0x205F || n == 0x3000
  }

  /** No leading or trailing whitespace: what `strip()` leaves behind. */
  predicate Trimmed(s: string) {
    s == [] || (!IsSpace(s[0]) && !IsSpace(s[|s| - 1]))
  }

  /** `s.split(c)[0]`: the text before the first `c`, or all of `s`. */
  function BeforeFirst(s: string, c: char): string {
    if s == [] then []
    else if s[0] == c then []
    else [s[0]] + BeforeFirst(s[1..], c)
  }

  /** `s.rstrip(c)`: drops every trailing `c`. */
  function TrimEnd(s: string, c: char): string {
    if s == [] then []
    else if s[|s| - 1] == c then TrimEnd(s[..|s| - 1], c)
    else s
  }

  /** `s.lstrip()`: drops leading whitespace. */
  function StripStart(s: string): string {
    if s == [] then []
    else if IsSpace(s[0]) then StripStart(s[1..])
    else s
  }

  /** `s.rstrip()`: drops trailing whitespace. */
  function StripEnd(s: string): string {
    if s == [] then []
    else if IsSpace(s[|s| - 1]) then StripEnd(s[..|s| - 1])
    else s
  }

  /** `s.strip()`: drops leading and trailing whitespace. */
  function Strip(s: string): string {
    StripEnd(StripStart(s))
  }

  /** `s.replace(c, '')`: every `c` removed, the other characters kept in order. */
  function RemoveAll(s: string, c: char): string {
    if s == [] then []
    else if s[0] == c then RemoveAll(s[1..], c)
    else [s[0]] + RemoveAll(s[1..], c)
  }

  // ---------------------------------------------------------------------
  // What each operation returns

  /** Every character of a prefix occurs in the whole. */
  lemma PrefixMembers(r: string, s: string)
    requires r <= s
    ensures forall x :: x in r ==> x in s
  {
    forall x | x in r
      ensures x in s
    {
      var i :| 0 <= i < |r| && r[i] == x;
      assert s[i] == x;
    }
  }

  /** `split(c)[0]` is the longest prefix without `c`: it stops at the end
      of `s` or just before the first `c`. */
  lemma {:induction false} BeforeFirstSpec(s: string, c: char)
    ensures var r := BeforeFirst(s, c);
      && r <= s
      && c !in r
      && (|r| == |s| || s[|r|] == c)
  {
    if s != [] && s[0] != c {
      BeforeFirstSpec(s[1..], c);
    }
  }

  /** `rstrip(c)` keeps a prefix that does not end in `c` and drops only
      `c`s. */
  lemma {:induction false} TrimEndSpec(s: string, c: char)
    ensures var r := TrimEnd(s, c);
      && r <= s
      && (r == [] || r[|r| - 1] != c)
      && (forall i :: |r| <= i < |s| ==> s[i] == c)
  {
    if s != [] && s[|s| - 1] == c {
      TrimEndSpec(s[..|s| - 1], c);
    }
  }

  /** `lstrip()` keeps a suffix that does not start with whitespace and
      drops only whitespace. */
  lemma {:induction false} StripStartSpec(s: string)
    ensures var r := StripStart(s);
      && |r| <= |s| && r == s[|s| - |r|..]
      && (r == [] || !IsSpace(r[0]))
      && (forall i :: 0 <= i < |s| - |r| ==> IsSpace(s[i]))
  {
    if s != [] && IsSpace(s[0]) {
      var t := s[1..];
      var r := StripStart(t);
      assert StripStart(s) == r;
      StripStartSpec(t);
      assert s[|s| - |r|..] == t[|t| - |r|..];
      forall i | 0 <= i < |s| - |r|
        ensures IsSpace(s[i])
      {
        if i > 0 {
          assert s[i] == t[i - 1];
        }
      }
    }
  }

  /** `rstrip()` keeps a prefix that does not end with whitespace and drops
      only whitespace. */
  lemma {:induction false} StripEndSpec(s: string)
    ensures var r := StripEnd(s);
      && r <= s
      && (r == [] || !IsSpace(r[|r| - 1]))
      && (forall i :: |r| <= i < |s| ==> IsSpace(s[i]))
  {
    if s != [] && IsSpace(s[|s| - 1]) {
      StripEndSpec(s[..|s| - 1]);
    }
  }

  /** `strip()` cuts off the leading whitespace and then the trailing
      whitespace: what is left is a slice of the input. */
  lemma StripSlice(s: string)
    ensures var i := |s| - |StripStart(s)|;
      && 0 <= i && i + |Strip(s)| <= |s| && Strip(s) == s[i..i + |Strip(s)|]
      && (forall k :: 0 <= k < i ==> IsSpace(s[k]))
      && (forall k :: i + |Strip(s)| <= k < |s| ==> IsSpace(s[k]))
  {
    var t := StripStart(s);
    StripStartSpec(s);
    StripEndSpec(t);
    var r := StripEnd(t);
    var i := |s| - |t|;
    assert r == s[i..i + |r|];
    forall k | i + |r| <= k < |s|
      ensures IsSpace(s[k])
    {
      assert s[k] == t[k - i];
    }
  }

  /** `strip()` leaves no surrounding whitespace and invents no character:
      it is the input with its leading and trailing whitespace cut off. */
  lemma StripSpec(s: string)
    ensures Trimmed(Strip(s))
    ensures |Strip(s)| <= |s|
    ensures forall x :: x in Strip(s) ==> x in s
    ensures var i := |s| - |StripStart(s)|;
      && 0 <= i && i + |Strip(s)| <= |s| && Strip(s) == s[i..i + |Strip(s)|]
      && (forall k :: 0 <= k < i ==> IsSpace(s[k]))
      && (forall k :: i + |Strip(s)| <= k < |s| ==> IsSpace(s[k]))
  {
    var t := StripStart(s);
    StripStartSpec(s);
    StripEndSpec(t);
    StripSlice(s);
    var r := StripEnd(t);
    var i := |s| - |t|;
    if r != [] {
      assert r[0] == t[0];
    }
    forall x | x in r
      ensures x in s
    {
      var j :| 0 <= j < |r| && r[j] == x;
      assert s[i + j] == x;
    }
  }

  /** `replace(c, '')` drops exactly the `c`s: the same characters with
      every `c` taken out. */
  lemma {:induction false} RemoveAllSpec(s: string, c: char)
    ensures multiset(RemoveAll(s, c)) == multiset(s)[c := 0]
    ensures c !in RemoveAll(s, c)
    ensures forall x :: x in RemoveAll(s, c) <==> x in s && x != c
  {
    if s != [] {
      RemoveAllSpec(s[1..], c);
      assert s == [s[0]] + s[1..];
      assert multiset(s) == multiset([s[0]]) + multiset(s[1..]);
    }
  }

  /** `strip()` leaves a string without surrounding whitespace unchanged. */
  lemma StripTrimmed(s: string)
    requires Trimmed(s)
    ensures Strip(s) == s
  {
    if s != [] {
      assert StripStart(s) == s;
      assert StripEnd(s) == s;
    }
  }

  /** `strip()` is idempotent. */
  lemma StripIdempotent(s: string)
    ensures Strip(Strip(s)) == Strip(s)
  {
    StripSpec(s);
    StripTrimmed(Strip(s));
  }

  /** `split(c)[0]` does nothing when `c` does not occur. */
  lemma {:induction false} BeforeFirstAbsent(s: string, c: char)
    requires c !in s
    ensures BeforeFirst(s, c) == s
  {
    if s != [] {
      assert s[0] in s;
      assert forall x :: x in s[1..] ==> x in s;
      BeforeFirstAbsent(s[1..], c);
    }
  }

  /** `split(c)[0]` stops at the first `c`, whatever follows it. */
  lemma {:induction false} BeforeFirstAt(a: string, c: char, b: string)
    requires c !in a
    ensures BeforeFirst(a + [c] + b, c) == a
  {
    if a != [] {
      assert a[0] in a;
      assert forall x :: x in a[1..] ==> x in a;
      assert (a + [c] + b)[1..] == a[1..] + [c] + b;
      BeforeFirstAt(a[1..], c, b);
    }
  }

  /** `replace(c, '')` works piece by piece. */
  lemma {:induction false} RemoveAllAppend(a: string, b: string, c: char)
    ensures RemoveAll(a + b, c) == RemoveAll(a, c) + RemoveAll(b, c)
  {
    if a != [] {
      assert (a + b)[0] == a[0];
      assert (a + b)[1..] == a[1..] + b;
      RemoveAllAppend(a[1..], b, c);
      if a[0] != c {
        assert [a[0]] + RemoveAll(a[1..], c) + RemoveAll(b, c) == [a[0]] + (RemoveAll(a[1..], c) + RemoveAll(b, c));
      }
    } else {
      assert a + b == b;
    }
  }

  /** `rstrip(c)` does nothing when `s` does not end in `c`. */
  lemma TrimEndAbsent(s: string, c: char)
    requires s == [] || s[|s| - 1] != c
    ensures TrimEnd(s, c) == s
  {
  }

  /** `replace(c, '')` does nothing when `c` does not occur. */
  lemma {:induction false} RemoveAllAbsent(s: string, c: char)
    requires c !in s
    ensures RemoveAll(s, c) == s
  {
    if s != [] {
      assert s[0] in s;
      assert forall x :: x in s[1..] ==> x in s;
      RemoveAllAbsent(s[1..], c);
    }
  }
}
