/** The string operations the store applies to user input: trimming
    surrounding whitespace and lower-casing. */
module Text {

  /** The ASCII characters that trimming removes: space, tab, line feed,
      vertical tab, form feed, carriage return and the four separators
      U+001C to U+001F. */
  predicate IsSpace(c: char) {
    c == ' ' || '\t' <= c <= '\r' || '\U{001C}' <= c <= '\U{001F}'
  }

  predicate AllSpace(s: string) {
    forall i :: 0 <= i < |s| ==> IsSpace(s[i])
  }

  /** Neither end of `s` is whitespace. */
  predicate Trimmed(s: string) {
    s == [] || (!IsSpace(s[0]) && !IsSpace(s[|s| - 1]))
  }

  /** `s` without its leading whitespace. */
  function TrimStart(s: string): (r: string)
    ensures |r| <= |s| && r == s[|s| - |r|..]
    ensures forall i :: 0 <= i < |s| - |r| ==> IsSpace(s[i])
    ensures r == [] || !IsSpace(r[0])
    ensures r == [] <==> AllSpace(s)
    decreases |s|
  {
    if s != [] && IsSpace(s[0]) then
      var r := TrimStart(s[1..]);
      SpaceTail(s, |s| - |r|);
      r
    else
      assert s != [] ==> !AllSpace(s);
      s
  }

  /** Dropping a leading whitespace character: what holds of the tail
      from index `n - 1` holds of `s` from index `n`. */
  lemma SpaceTail(s: string, n: nat)
    requires s != [] && IsSpace(s[0]) && 1 <= n <= |s|
    requires forall i :: 0 <= i < n - 1 ==> IsSpace(s[1..][i])
    ensures s[1..][n - 1..] == s[n..]
    ensures forall i :: 0 <= i < n ==> IsSpace(s[i])
    ensures AllSpace(s) <==> AllSpace(s[1..])
  {
    assert forall i :: 1 <= i < |s| ==> s[i] == s[1..][i - 1];
  }

  /** `s` without its trailing whitespace. */
  function TrimEnd(s: string): (r: string)
    ensures |r| <= |s| && r == s[..|r|]
    ensures forall i :: |r| <= i < |s| ==> IsSpace(s[i])
    ensures r == [] || !IsSpace(r[|r| - 1])
    ensures r == [] <==> AllSpace(s)
    decreases |s|
  {
    if s != [] && IsSpace(s[|s| - 1]) then
      TrimEnd(s[..|s| - 1])
    else s
  }

  /** Python's `str.strip()` over the whitespace of IsSpace. */
  function Strip(s: string): (r: string)
    ensures Trimmed(r) && |r| <= |s|
    ensures r == [] <==> AllSpace(s)
  {
    StripParts(s);
    TrimEnd(TrimStart(s))
  }

  /** What Strip's two halves guarantee, put together. */
  lemma StripParts(s: string)
    ensures Trimmed(TrimEnd(TrimStart(s))) && |TrimEnd(TrimStart(s))| <= |s|
    ensures TrimEnd(TrimStart(s)) == [] <==> AllSpace(s)
  {
    var t := TrimStart(s);
    var r := TrimEnd(t);
    if r != [] {
      assert r[0] == t[0];
    }
    if t != [] {
      assert !IsSpace(t[0]);
    }
  }

  lemma {:induction false} TrimStartPadded(pad: string, x: string)
    requires AllSpace(pad)
    ensures TrimStart(pad + x) == TrimStart(x)
    decreases |pad|
  {
    if pad != [] {
      assert (pad + x)[1..] == pad[1..] + x;
      TrimStartPadded(pad[1..], x);
    } else {
      assert pad + x == x;
    }
  }

  lemma {:induction false} TrimEndPadded(x: string, pad: string)
    requires AllSpace(pad)
    ensures TrimEnd(x + pad) == TrimEnd(x)
    decreases |pad|
  {
    if pad != [] {
      assert (x + pad)[..|x + pad| - 1] == x + pad[..|pad| - 1];
      TrimEndPadded(x, pad[..|pad| - 1]);
    } else {
      assert x + pad == x;
    }
  }

  /** Trailing padding survives TrimStart unless `x` is all whitespace. */
  lemma {:induction false} TrimStartKeepsTail(x: string, pad: string)
    requires AllSpace(pad)
    ensures TrimStart(x + pad) == if AllSpace(x) then [] else TrimStart(x) + pad
    decreases |x|
  {
    if x == [] {
      assert x + pad == pad;
    } else if IsSpace(x[0]) {
      assert (x + pad)[1..] == x[1..] + pad;
      TrimStartKeepsTail(x[1..], pad);
      SpaceTail(x, 1);
    } else {
      assert (x + pad)[0] == x[0];
    }
  }

  /** Whitespace added around a string does not change what Strip returns;
      with a trimmed middle, Strip returns exactly that middle. */
  lemma StripIgnoresPadding(pad: string, x: string, pad': string)
    requires AllSpace(pad) && AllSpace(pad')
    ensures Strip(pad + x + pad') == Strip(x)
    ensures Trimmed(x) ==> Strip(pad + x + pad') == x
  {
    var tail := x + pad';
    var whole := pad + x + pad';
    assert whole == pad + tail;
    calc {
      Strip(whole);
      TrimEnd(TrimStart(whole));
      { TrimStartPadded(pad, tail); }
      TrimEnd(TrimStart(tail));
      { StripTailPadded(x, pad'); }
      TrimEnd(TrimStart(x));
      Strip(x);
    }
    if Trimmed(x) {
      assert TrimStart(x) == x;
      assert TrimEnd(x) == x;
    }
  }

  /** Trailing whitespace does not survive Strip's two halves. */
  lemma StripTailPadded(x: string, pad: string)
    requires AllSpace(pad)
    ensures TrimEnd(TrimStart(x + pad)) == TrimEnd(TrimStart(x))
  {
    TrimStartKeepsTail(x, pad);
    if !AllSpace(x) {
      TrimEndPadded(TrimStart(x), pad);
    }
  }

  /** Stripping twice is stripping once. */
  lemma StripIdempotent(s: string)
    ensures Strip(Strip(s)) == Strip(s)
  {
    StripIgnoresPadding([], Strip(s), []);
    assert [] + Strip(s) + [] == Strip(s);
  }

  /** ASCII lower-casing of one character. */
  function LowerChar(c: char): (r: char)
    ensures 'A' <= c <= 'Z' ==> r as int == c as int + 32
    ensures !('A' <= c <= 'Z') ==> r == c
  {
    if 'A' <= c <= 'Z' then (c as int + 32) as char else c
  }

  /** Python's `str.lower()` over ASCII letters. */
  function Lower(s: string): (r: string)
    ensures |r| == |s| && forall i :: 0 <= i < |s| ==> r[i] == LowerChar(s[i])
  {
    seq(|s|, i requires 0 <= i < |s| => LowerChar(s[i]))
  }

  /** Lower-casing keeps whitespace where it was, so lower-casing then
      stripping gives the same string as stripping then lower-casing. */
  lemma LowerThenStrip(s: string)
    ensures Strip(Lower(s)) == Lower(Strip(s))
  {
    LowerTrimStart(s);
    LowerTrimEnd(TrimStart(s));
  }

  lemma {:induction false} LowerTrimStart(s: string)
    ensures TrimStart(Lower(s)) == Lower(TrimStart(s))
    decreases |s|
  {
    if s != [] {
      var l := Lower(s);
      assert l[0] == LowerChar(s[0]);
      if IsSpace(s[0]) {
        assert l[0] == s[0];
        assert l[1..] == Lower(s[1..]);
        calc {
          TrimStart(l);
          TrimStart(l[1..]);
          { LowerTrimStart(s[1..]); }
          Lower(TrimStart(s[1..]));
        }
      } else {
        assert !IsSpace(l[0]);
      }
    }
  }

  lemma {:induction false} LowerTrimEnd(s: string)
    ensures TrimEnd(Lower(s)) == Lower(TrimEnd(s))
    decreases |s|
  {
    if s != [] {
      var l := Lower(s);
      assert l[|s| - 1] == LowerChar(s[|s| - 1]);
      if IsSpace(s[|s| - 1]) {
        assert l[|s| - 1] == s[|s| - 1];
        assert l[..|s| - 1] == Lower(s[..|s| - 1]);
        calc {
          TrimEnd(l);
          TrimEnd(l[..|s| - 1]);
          { LowerTrimEnd(s[..|s| - 1]); }
          Lower(TrimEnd(s[..|s| - 1]));
        }
      } else {
        assert !IsSpace(l[|s| - 1]);
      }
    }
  }

  /** Lower-casing a concatenation lower-cases each part. */
  lemma LowerConcat(a: string, b: string)
    ensures Lower(a + b) == Lower(a) + Lower(b)
  {
  }

  /** Lower-cased whitespace is still whitespace. */
  lemma LowerKeepsSpace(s: string)
    requires AllSpace(s)
    ensures AllSpace(Lower(s))
  {
  }

  /** Lower-casing twice is lower-casing once. */
  lemma LowerIdempotent(s: string)
    ensures Lower(Lower(s)) == Lower(s)
  {
  }
}
