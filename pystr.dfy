/** Python's built-in string and list operations that the comment cleaners rely on:
    `sub in s`, `s.replace(old, new)`, `sep.join(xs)` and `xs.index(x)`.
    Strings are sequences of characters (code points); lists are sequences. */
module PyStr {

  datatype Option<+T> = None | Some(value: T)

  /** Python's `pat in s` on strings: `pat` occurs in `s` as a contiguous block.
      The empty string occurs in every string, as in Python. */
  predicate Contains(s: string, pat: string)
    ensures pat == [] ==> Contains(s, pat)
    ensures Contains(s, pat) ==> |pat| <= |s|
    decreases |s|
  {
    pat <= s || (|s| > 0 && Contains(s[1..], pat))
  }

  /** `Contains` agrees with the positional definition of an occurrence. */
  lemma {:induction false} ContainsIffOccurs(s: string, pat: string)
    ensures Contains(s, pat) <==> exists i :: 0 <= i <= |s| && pat <= s[i..]
    decreases |s|
  {
    if pat <= s {
      assert s[0..] == s;
    } else if |s| == 0 {
      forall i | 0 <= i <= |s| ensures !(pat <= s[i..]) {
        assert s[i..] == s;
      }
    } else {
      ContainsIffOccurs(s[1..], pat);
      if Contains(s[1..], pat) {
        var i :| 0 <= i <= |s[1..]| && pat <= s[1..][i..];
        assert s[1..][i..] == s[i + 1..];
      } else {
        forall i | 0 <= i <= |s| ensures !(pat <= s[i..]) {
          if i > 0 {
            assert s[1..][i - 1..] == s[i..];
          } else {
            assert s[0..] == s;
          }
        }
      }
    }
  }

  /** The empty text contains no nonempty string. */
  lemma EmptyContainsOnlyEmpty(pat: string)
    ensures Contains([], pat) <==> pat == []
  {
  }

  /** Python's `s.replace("", rep)`: `rep` before every character and at the end. */
  function InsertEverywhere(s: string, rep: string): (r: string)
    ensures |r| == |s| + (|s| + 1) * |rep|
  {
    if |s| == 0 then rep else rep + [s[0]] + InsertEverywhere(s[1..], rep)
  }

  /** Python's `s.replace(pat, rep)`: scanning left to right, every occurrence of
      `pat` that does not overlap an earlier replaced one becomes `rep`. */
  function ReplaceAll(s: string, pat: string, rep: string): (r: string)
    ensures |pat| > 0 && |rep| == |pat| ==> |r| == |s|
    ensures |pat| > 0 && |rep| <= |pat| ==> |r| <= |s|
    ensures |pat| > 0 && |rep| >= |pat| ==> |r| >= |s|
    decreases |s|
  {
    if |pat| == 0 then InsertEverywhere(s, rep)
    else if |s| == 0 then []
    else if pat <= s then rep + ReplaceAll(s[|pat|..], pat, rep)
    else [s[0]] + ReplaceAll(s[1..], pat, rep)
  }

  /** Replacing a nonempty string that does not occur leaves the text unchanged. */
  lemma {:induction false} ReplaceAbsent(s: string, pat: string, rep: string)
    requires |pat| > 0 && !Contains(s, pat)
    ensures ReplaceAll(s, pat, rep) == s
    decreases |s|
  {
    if |s| > 0 {
      ReplaceAbsent(s[1..], pat, rep);
      assert [s[0]] + s[1..] == s;
    }
  }

  /** Guarding `s.replace(pat, rep)` with `pat in s` changes nothing, for every
      `pat` (the empty string is always "in" the text). */
  lemma GuardedReplaceIsReplace(s: string, pat: string, rep: string)
    ensures (if Contains(s, pat) then ReplaceAll(s, pat, rep) else s) == ReplaceAll(s, pat, rep)
  {
    if |pat| == 0 {
      assert pat <= s;
    } else if !Contains(s, pat) {
      ReplaceAbsent(s, pat, rep);
    }
  }

  /** Reference definition of replacing one character: each character of `s`
      equal to `c` becomes `rep`, every other character is kept. */
  function MapChar(s: string, c: char, rep: string): string
  {
    if |s| == 0 then [] else (if s[0] == c then rep else [s[0]]) + MapChar(s[1..], c, rep)
  }

  /** `s.replace(c, rep)` for a one-character `c` is the character-wise map. */
  lemma {:induction false} ReplaceCharIsMapChar(s: string, c: char, rep: string)
    ensures ReplaceAll(s, [c], rep) == MapChar(s, c, rep)
    decreases |s|
  {
    if |s| > 0 {
      ReplaceCharIsMapChar(s[1..], c, rep);
      assert [c] <= s <==> s[0] == c;
    }
  }

  /** The character-wise map distributes over concatenation. */
  lemma {:induction false} MapCharAppend(a: string, b: string, c: char, rep: string)
    ensures MapChar(a + b, c, rep) == MapChar(a, c, rep) + MapChar(b, c, rep)
    decreases |a|
  {
    if |a| > 0 {
      MapCharAppend(a[1..], b, c, rep);
      assert (a + b)[1..] == a[1..] + b;
    } else {
      assert a + b == b;
    }
  }

  /** Replacing a character by one character keeps the length and works position by position. */
  lemma {:induction false} MapCharPointwise(s: string, c: char, d: char)
    ensures |MapChar(s, c, [d])| == |s|
    ensures forall j :: 0 <= j < |s| ==> MapChar(s, c, [d])[j] == if s[j] == c then d else s[j]
    decreases |s|
  {
    if |s| > 0 {
      MapCharPointwise(s[1..], c, d);
    }
  }

  /** Every character of the mapped text comes from `rep` or is an original character other than `c`. */
  lemma {:induction false} MapCharOrigin(s: string, c: char, rep: string, x: char)
    ensures x in MapChar(s, c, rep) ==> x in rep || (x in s && x != c)
    decreases |s|
  {
    if |s| > 0 {
      MapCharOrigin(s[1..], c, rep, x);
    }
  }

  /** Total length of the strings of a list. */
  function TotalLength(xs: seq<string>): nat
  {
    if |xs| == 0 then 0 else |xs[0]| + TotalLength(xs[1..])
  }

  /** Python's `sep.join(xs)`: the strings, in order, with one `sep` between neighbours. */
  function Join(sep: string, xs: seq<string>): (r: string)
    ensures |xs| == 0 ==> r == []
    ensures |xs| > 0 ==> xs[0] <= r
    ensures |xs| > 0 ==> |r| == TotalLength(xs) + (|xs| - 1) * |sep|
  {
    if |xs| == 0 then [] else if |xs| == 1 then xs[0] else xs[0] + sep + Join(sep, xs[1..])
  }

  /** Python's `xs.index(x)` guarded by `x in xs`: the first position holding `x`. */
  function FirstIndex(xs: seq<string>, x: string): (r: Option<nat>)
    ensures r.None? <==> x !in xs
    ensures r.Some? ==> r.value < |xs| && xs[r.value] == x && x !in xs[..r.value]
  {
    if |xs| == 0 then None
    else if xs[0] == x then Some(0)
    else match FirstIndex(xs[1..], x)
      case None => None
      case Some(i) =>
        assert xs[..i + 1] == [xs[0]] + xs[1..][..i];
        Some(i + 1)
  }
}
