/** The few string operations of Python's `str` that the chat core relies on:
    whitespace stripping (for the "blank" checks), `"\n".join` and `split`. */
module Text {

  /** Python's `str.isspace` for one character: the characters `str.strip()`
      removes when called without arguments. */
  predicate IsSpace(c: char) {
    var n := c as int;
    || (0x09 <= n <= 0x0D)
    || (0x1C <= n <= 0x20)
    || n == 0x85 || n == 0xA0 || n == 0x1680
    || (0x2000 <= n <= 0x200A)
    || n == 0x2028 || n == 0x2029 || n == 0x202F || n == 0x205F || n == 0x3000
  }

  /** Every character of `s` is whitespace (vacuously true of ""). */
  predicate AllSpace(s: string) {
    forall i :: 0 <= i < |s| ==> IsSpace(s[i])
  }

  /** `s.lstrip()`: drops the longest all-whitespace prefix. */
  function StripLeft(s: string): (r: string)
    ensures |r| <= |s| && r == s[|s| - |r|..]
    ensures AllSpace(s[..|s| - |r|])
    ensures r == [] || !IsSpace(r[0])
  {
    if |s| > 0 && IsSpace(s[0]) then
      var rest := StripLeft(s[1..]);
      assert s[1..][..|s| - 1 - |rest|] == s[1..|s| - |rest|];
      rest
    else s
  }

  /** `s.rstrip()`: drops the longest all-whitespace suffix. */
  function StripRight(s: string): (r: string)
    ensures |r| <= |s| && r == s[..|r|]
    ensures AllSpace(s[|r|..])
    ensures r == [] || !IsSpace(r[|r| - 1])
  {
    if |s| > 0 && IsSpace(s[|s| - 1]) then
      var init := s[..|s| - 1];
      var rest := StripRight(init);
      assert rest == s[..|rest|] by {
        assert init[..|rest|] == s[..|rest|];
      }
      assert AllSpace(s[|rest|..]) by {
        assert init[|rest|..] == s[|rest|..|s| - 1];
        forall i | |rest| <= i < |s|
          ensures IsSpace(s[i])
        {
          if i < |s| - 1 {
            assert s[i] == init[|rest|..][i - |rest|];
          }
        }
      }
      rest
    else s
  }

  /** `s.strip()`. */
  function Strip(s: string): string {
    StripRight(StripLeft(s))
  }

  /** The entities' emptiness test, written as the source writes it:
      `not s or not s.strip()`. It holds exactly when `s` consists of
      whitespace only. */
  predicate IsBlank(s: string)
    ensures IsBlank(s) <==> AllSpace(s)
  {
    BlankIffAllSpace(s);
    |s| == 0 || |Strip(s)| == 0
  }

  /** `not s or not s.strip()` holds exactly when every character of `s` is
      whitespace. */
  lemma BlankIffAllSpace(s: string)
    ensures (|s| == 0 || |Strip(s)| == 0) <==> AllSpace(s)
  {
    if AllSpace(s) {
      AllSpaceStripsAll(s);
    } else {
      var k :| 0 <= k < |s| && !IsSpace(s[k]);
      NonSpaceSurvives(s, k);
    }
  }

  lemma AllSpaceStripsAll(s: string)
    requires AllSpace(s)
    ensures Strip(s) == []
  {
    StripLeftAllSpace(s);
    assert Strip(s) == StripRight([]);
  }

  /** A non-whitespace character survives `strip`. */
  lemma NonSpaceSurvives(s: string, k: nat)
    requires k < |s| && !IsSpace(s[k])
    ensures |Strip(s)| > 0
  {
    StripLeftKeeps(s, k);
    var l := StripLeft(s);
    var d := |s| - |l|;
    var j := k - d;
    assert l[j] == s[k];
    StripRightKeeps(l, j);
  }

  lemma {:induction false} StripLeftAllSpace(s: string)
    requires AllSpace(s)
    ensures StripLeft(s) == []
    decreases |s|
  {
    if |s| > 0 {
      StripLeftAllSpace(s[1..]);
    }
  }

  /** `lstrip` never removes a non-whitespace character. */
  lemma {:induction false} StripLeftKeeps(s: string, k: nat)
    requires k < |s| && !IsSpace(s[k])
    ensures |StripLeft(s)| >= |s| - k
    decreases |s|
  {
    if IsSpace(s[0]) {
      StripLeftKeeps(s[1..], k - 1);
    }
  }

  /** `rstrip` never removes a non-whitespace character. */
  lemma {:induction false} StripRightKeeps(s: string, k: nat)
    requires k < |s| && !IsSpace(s[k])
    ensures |StripRight(s)| > k
    decreases |s|
  {
    if IsSpace(s[|s| - 1]) {
      StripRightKeeps(s[..|s| - 1], k);
    }
  }

  /** `sep.join(lines)` for a one-character separator. Splitting the result
      at the separator gives the lines back, provided there is at least one
      line and no line contains the separator. */
  function Join(lines: seq<string>, sep: char): (r: string)
    ensures |lines| >= 1 ==> |r| >= |lines[0]|
    ensures |lines| >= 1 && (forall i :: 0 <= i < |lines| ==> sep !in lines[i]) ==>
      Split(r, sep) == lines
  {
    if |lines| == 0 then ""
    else if |lines| == 1 then lines[0]
    else
      var rest := Join(lines[1..], sep);
      assert (forall i :: 0 <= i < |lines| ==> sep !in lines[i]) ==>
        Split(lines[0] + [sep] + rest, sep) == lines
      by {
        if forall i :: 0 <= i < |lines| ==> sep !in lines[i] {
          assert forall i :: 0 <= i < |lines| - 1 ==> lines[1..][i] == lines[i + 1];
          SplitCons(lines[0], sep, rest);
          assert lines == [lines[0]] + lines[1..];
        }
      }
      lines[0] + [sep] + rest
  }

  /** Index of the first occurrence of `c` in `s`. */
  function IndexOf(s: string, c: char): (r: nat)
    requires c in s
    ensures r < |s| && s[r] == c
    ensures forall k :: 0 <= k < r ==> s[k] != c
  {
    if s[0] == c then 0 else 1 + IndexOf(s[1..], c)
  }

  /** `s.split(sep)` for a one-character separator: the pieces between
      consecutive separators, always at least one (`"".split(sep) == [""]`). */
  function Split(s: string, sep: char): (r: seq<string>)
    ensures |r| >= 1
    ensures forall i :: 0 <= i < |r| ==> sep !in r[i]
    decreases |s|
  {
    if sep !in s then [s]
    else
      var i := IndexOf(s, sep);
      [s[..i]] + Split(s[i + 1..], sep)
  }

  /** The first separator of `a + [sep] + b` is the one after `a`. */
  lemma {:induction false} IndexOfAfter(a: string, sep: char, b: string)
    requires sep !in a
    ensures IndexOf(a + [sep] + b, sep) == |a|
  {
    if |a| > 0 {
      assert (a + [sep] + b)[1..] == a[1..] + [sep] + b;
      IndexOfAfter(a[1..], sep, b);
    }
  }

  /** Splitting at the first separator peels off the piece before it. */
  lemma SplitCons(a: string, sep: char, b: string)
    requires sep !in a
    ensures Split(a + [sep] + b, sep) == [a] + Split(b, sep)
  {
    var s := a + [sep] + b;
    IndexOfAfter(a, sep, b);
    assert s[..|a|] == a;
    assert s[|a| + 1..] == b;
  }
}
