/** The Python string built-ins both components rely on, over `string` (= seq<char>):
    `in`, `startswith`, `split('\n')`, `'\n'.join`, `strip`, `isalnum`, and the
    ASCII part of case-insensitive comparison. */
module Text {

  datatype Option<T> = None | Some(value: T)

  /** Python's `s.startswith(p)`. */
  predicate StartsWith(s: string, p: string) {
    |p| <= |s| && s[..|p|] == p
  }

  /** Python's `t in s`: t occurs in s as a contiguous block (the empty string occurs everywhere). */
  predicate Contains(s: string, t: string)
    decreases |s|
  {
    StartsWith(s, t) || (|s| > 0 && Contains(s[1..], t))
  }

  /** t occurs in s starting at position k. */
  predicate OccursAt(s: string, t: string, k: int) {
    0 <= k && k + |t| <= |s| && s[k..k + |t|] == t
  }

  /** The scanning definition of `Contains` agrees with the positional definition of a substring. */
  lemma {:induction false} ContainsIff(s: string, t: string)
    ensures Contains(s, t) <==> exists k :: OccursAt(s, t, k)
    decreases |s|
  {
    if Contains(s, t) {
      if StartsWith(s, t) {
        assert OccursAt(s, t, 0);
      } else {
        ContainsIff(s[1..], t);
        var k :| OccursAt(s[1..], t, k);
        assert s[1..][k..k + |t|] == s[k + 1..k + 1 + |t|];
        assert OccursAt(s, t, k + 1);
      }
    }
    if exists k :: OccursAt(s, t, k) {
      var k :| OccursAt(s, t, k);
      if k == 0 {
        assert StartsWith(s, t);
      } else {
        assert s[1..][k - 1..k - 1 + |t|] == s[k..k + |t|];
        assert OccursAt(s[1..], t, k - 1);
        ContainsIff(s[1..], t);
      }
    }
  }

  /** An occurrence that starts after a prefix lies in the rest of the string. */
  lemma OccursAfterPrefix(p: string, v: string, t: string, k: int)
    requires OccursAt(p + v, t, k) && k >= |p|
    ensures OccursAt(v, t, k - |p|)
  {
    var s := p + v;
    forall i | 0 <= i < |t| ensures v[k - |p| + i] == t[i] {
      assert t[i] == s[k..k + |t|][i] == s[k + i];
    }
    assert v[k - |p|..k - |p| + |t|] == t;
  }

  /** A string that ends with `c` can only occur where `c` occurs. */
  lemma ContainsLastChar(s: string, t: string)
    requires |t| > 0 && Contains(s, t)
    ensures t[|t| - 1] in s
  {
    ContainsIff(s, t);
    var k :| OccursAt(s, t, k);
    assert s[k + |t| - 1] == s[k..k + |t|][|t| - 1];
  }

  /** Python's `'\n'.join(lines)`. */
  function Join(lines: seq<string>): string
  {
    if |lines| == 0 then ""
    else if |lines| == 1 then lines[0]
    else lines[0] + "\n" + Join(lines[1..])
  }

  /** Python's `s.split('\n')`: there is always at least one piece, no piece holds a
      newline, and joining the pieces back gives s. */
  function Split(s: string): (lines: seq<string>)
    ensures |lines| >= 1
    ensures forall i :: 0 <= i < |lines| ==> '\n' !in lines[i]
    ensures Join(lines) == s
    decreases |s|
  {
    if |s| == 0 then [""]
    else if s[0] == '\n' then
      var rest := Split(s[1..]);
      assert s == "\n" + s[1..];
      [""] + rest
    else
      var rest := Split(s[1..]);
      assert s == [s[0]] + s[1..];
      [[s[0]] + rest[0]] + rest[1..]
  }

  /** A string without a newline is a single piece. */
  lemma {:induction false} SplitSingle(a: string)
    requires '\n' !in a
    ensures Split(a) == [a]
    decreases |a|
  {
    if |a| > 0 {
      SplitSingle(a[1..]);
      assert [a[0]] + a[1..] == a;
    }
  }

  /** Splitting after a newline-free first line. */
  lemma {:induction false} SplitAfterLine(a: string, t: string)
    requires '\n' !in a
    ensures Split(a + "\n" + t) == [a] + Split(t)
    decreases |a|
  {
    if |a| == 0 {
      assert a + "\n" + t == "\n" + t;
      assert ("\n" + t)[1..] == t;
    } else {
      var s := a + "\n" + t;
      assert s[1..] == a[1..] + "\n" + t;
      SplitAfterLine(a[1..], t);
      assert [a[0]] + a[1..] == a;
    }
  }

  /** `'\n'.join` then `split('\n')` is the identity on newline-free lines. */
  lemma {:induction false} JoinSplit(lines: seq<string>)
    requires |lines| >= 1
    requires forall i :: 0 <= i < |lines| ==> '\n' !in lines[i]
    ensures Split(Join(lines)) == lines
    decreases |lines|
  {
    if |lines| == 1 {
      SplitSingle(lines[0]);
    } else {
      JoinSplit(lines[1..]);
      SplitAfterLine(lines[0], Join(lines[1..]));
      assert [lines[0]] + lines[1..] == lines;
    }
  }

  /** A newline-free string found in s is found inside one line of `s.split('\n')`. */
  lemma {:induction false} ContainsWithinLine(s: string, w: string)
    requires '\n' !in w && Contains(s, w)
    ensures exists i :: 0 <= i < |Split(s)| && Contains(Split(s)[i], w)
    decreases |s|
  {
    if StartsWith(s, w) {
      StartsWithFirstLine(s, w);
      assert Contains(Split(s)[0], w);
    } else {
      ContainsWithinLine(s[1..], w);
      var rest := Split(s[1..]);
      var i :| 0 <= i < |rest| && Contains(rest[i], w);
      if s[0] == '\n' {
        assert Split(s)[i + 1] == rest[i];
      } else if i == 0 {
        assert ([s[0]] + rest[0])[1..] == rest[0];
        assert Contains(Split(s)[0], w);
      } else {
        assert Split(s)[i] == rest[i];
      }
    }
  }

  lemma {:induction false} StartsWithFirstLine(s: string, w: string)
    requires '\n' !in w && StartsWith(s, w)
    ensures StartsWith(Split(s)[0], w)
    decreases |w|
  {
    if |w| > 0 {
      assert s[0] == w[0];
      assert s[1..][..|w| - 1] == w[1..];
      StartsWithFirstLine(s[1..], w[1..]);
      var rest := Split(s[1..]);
      assert Split(s)[0] == [s[0]] + rest[0];
      assert ([s[0]] + rest[0])[..|w|] == [s[0]] + rest[0][..|w| - 1];
    }
  }

  /** Python's `str.isspace()` for one character. */
  predicate IsSpace(c: char) {
    c == ' ' || '\t' <= c <= '\r' || '\U{001C}' <= c <= '\U{001F}'
    || c == '\U{0085}' || c == '\U{00A0}' || c == '\U{1680}' || '\U{2000}' <= c <= '\U{200A}'
    || c == '\U{2028}' || c == '\U{2029}' || c == '\U{202F}' || c == '\U{205F}' || c == '\U{3000}'
  }

  function TrimStart(s: string): string
    decreases |s|
  {
    if |s| > 0 && IsSpace(s[0]) then TrimStart(s[1..]) else s
  }

  function TrimEnd(s: string): string
    decreases |s|
  {
    if |s| > 0 && IsSpace(s[|s| - 1]) then TrimEnd(s[..|s| - 1]) else s
  }

  /** Python's `s.strip()`. */
  function Strip(s: string): string {
    TrimEnd(TrimStart(s))
  }

  /** `Strip` removes exactly a whitespace run at each end: what is left is a slice of s
      that neither starts nor ends with whitespace. */
  lemma StripIsTrimmedSlice(s: string)
    ensures exists i, j :: 0 <= i <= j <= |s| && Strip(s) == s[i..j]
                           && (forall k :: 0 <= k < i ==> IsSpace(s[k]))
                           && (forall k :: j <= k < |s| ==> IsSpace(s[k]))
    ensures |Strip(s)| > 0 ==> !IsSpace(Strip(s)[0]) && !IsSpace(Strip(s)[|Strip(s)| - 1])
  {
    var t := TrimStart(s);
    TrimStartSlice(s);
    TrimEndSlice(t);
    var r := Strip(s);
    var i := |s| - |t|;
    var j := i + |r|;
    assert r == t[..|r|] == s[i..j];
    forall k | j <= k < |s| ensures IsSpace(s[k]) {
      assert s[k] == t[k - i];
    }
    if |r| > 0 {
      assert r[0] == t[0];
    }
    assert 0 <= i <= j <= |s| && r == s[i..j] && (forall k :: 0 <= k < i ==> IsSpace(s[k]))
           && (forall k :: j <= k < |s| ==> IsSpace(s[k]));
  }

  /** Every character of the stripped text comes from s. */
  lemma StripWithin(s: string)
    ensures forall c :: c in Strip(s) ==> c in s
  {
    StripIsTrimmedSlice(s);
    var i, j :| 0 <= i <= j <= |s| && Strip(s) == s[i..j];
    forall c | c in Strip(s) ensures c in s {
      var x :| 0 <= x < |Strip(s)| && Strip(s)[x] == c;
      assert c == s[i + x];
    }
  }

  /** TrimStart drops a whitespace run from the front. */
  lemma {:induction false} TrimStartSlice(s: string)
    ensures |TrimStart(s)| <= |s| && TrimStart(s) == s[|s| - |TrimStart(s)|..]
    ensures forall k :: 0 <= k < |s| - |TrimStart(s)| ==> IsSpace(s[k])
    ensures |TrimStart(s)| > 0 ==> !IsSpace(TrimStart(s)[0])
    decreases |s|
  {
    if |s| > 0 && IsSpace(s[0]) {
      TrimStartSlice(s[1..]);
      forall k | 1 <= k < |s| - |TrimStart(s)| ensures IsSpace(s[k]) {
        assert s[k] == s[1..][k - 1];
      }
    }
  }

  /** TrimEnd drops a whitespace run from the back. */
  lemma {:induction false} TrimEndSlice(s: string)
    ensures |TrimEnd(s)| <= |s| && TrimEnd(s) == s[..|TrimEnd(s)|]
    ensures forall k :: |TrimEnd(s)| <= k < |s| ==> IsSpace(s[k])
    ensures |TrimEnd(s)| > 0 ==> !IsSpace(TrimEnd(s)[|TrimEnd(s)| - 1])
    decreases |s|
  {
    if |s| > 0 && IsSpace(s[|s| - 1]) {
      var u := s[..|s| - 1];
      TrimEndSlice(u);
      assert u[..|TrimEnd(u)|] == s[..|TrimEnd(u)|];
    }
  }

  /** A leading blank does not change the stripped text. */
  lemma StripLeadingBlank(v: string)
    ensures Strip(" " + v) == Strip(v)
  {
    assert (" " + v)[1..] == v;
  }

  predicate IsAsciiAlnum(c: char) {
    'a' <= c <= 'z' || 'A' <= c <= 'Z' || '0' <= c <= '9'
  }

  /** Python's `s.isalnum()`, for ASCII letters and digits. */
  predicate IsAlnum(s: string) {
    |s| > 0 && forall i :: 0 <= i < |s| ==> IsAsciiAlnum(s[i])
  }

  /** What `strip()` leaves of a tag: a run of letters and digits is kept whole, a run of
      whitespace vanishes, and every other character stays. */
  lemma StrippedTag(t: string)
    ensures (|t| > 0 && forall k :: 0 <= k < |t| ==> IsAsciiAlnum(t[k])) ==> Strip(t) == t
    ensures (forall k :: 0 <= k < |t| ==> IsSpace(t[k])) ==> Strip(t) == []
    ensures forall x :: 0 <= x < |t| && !IsSpace(t[x]) ==> t[x] in Strip(t)
  {
    StripIsTrimmedSlice(t);
    var i, j :| 0 <= i <= j <= |t| && Strip(t) == t[i..j]
                && (forall k :: 0 <= k < i ==> IsSpace(t[k]))
                && (forall k :: j <= k < |t| ==> IsSpace(t[k]));
    forall x | 0 <= x < |t| && !IsSpace(t[x]) ensures t[x] in Strip(t) {
      assert Strip(t)[x - i] == t[x];
    }
    if |t| > 0 && forall k :: 0 <= k < |t| ==> IsAsciiAlnum(t[k]) {
      assert !IsSpace(t[0]) && !IsSpace(t[|t| - 1]);
      assert i == 0 && j == |t|;
    }
  }

  /** ASCII lower-casing. */
  function ToLowerAscii(c: char): char {
    if 'A' <= c <= 'Z' then (c as int + 32) as char else c
  }

  /** a keeps the order of b and takes each of b's elements at most once. */
  predicate IsSubsequence<T(==)>(a: seq<T>, b: seq<T>)
    decreases |b|
  {
    |a| == 0 ||
    (|b| > 0 &&
     ((a[|a| - 1] == b[|b| - 1] && IsSubsequence(a[..|a| - 1], b[..|b| - 1]))
      || IsSubsequence(a, b[..|b| - 1])))
  }
}
