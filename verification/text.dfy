/**
  The parts of Go's `strings` package that the ingestion path relies on:
  `strings.Split` with a one-character separator and `strings.TrimSpace`.
  Strings are sequences of Unicode scalar values.
 */
module Text {

  /** Number of occurrences of `c` in `s` (`strings.Count` for one character). */
  function CountChar(s: string, c: char): (n: nat)
    ensures n <= |s|
    ensures n == 0 <==> c !in s
  {
    if |s| == 0 then 0
    else (if s[0] == c then 1 else 0) + CountChar(s[1..], c)
  }

  /** `strings.Join(parts, string(sep))`; Go's Split never returns an empty slice. */
  function Join(parts: seq<string>, sep: char): (s: string)
    requires |parts| > 0
    ensures parts[0] <= s
  {
    if |parts| == 1 then parts[0]
    else parts[0] + ([sep] + Join(parts[1..], sep))
  }

  /**
    `strings.Split(s, string(sep))`: the maximal runs of non-separator characters
    between the separators, one more segment than there are separators.
   */
  function Split(s: string, sep: char): (parts: seq<string>)
    ensures |parts| == CountChar(s, sep) + 1
  {
    if |s| == 0 then [""]
    else
      var rest := Split(s[1..], sep);
      if s[0] == sep then [""] + rest
      else [[s[0]] + rest[0]] + rest[1..]
  }

  /** No segment contains the separator. */
  lemma {:induction false} SplitSegmentsFree(s: string, sep: char)
    ensures forall i :: 0 <= i < |Split(s, sep)| ==> sep !in Split(s, sep)[i]
  {
    if |s| > 0 {
      SplitSegmentsFree(s[1..], sep);
      SplitCons(s, sep);
    }
  }

  /** Joining the segments with the separator gives back the original string. */
  lemma {:induction false} JoinSplit(s: string, sep: char)
    ensures Join(Split(s, sep), sep) == s
  {
    if |s| > 0 {
      JoinSplit(s[1..], sep);
      SplitCons(s, sep);
      var rest := Split(s[1..], sep);
      if s[0] == sep {
        assert ([""] + rest)[1..] == rest;
      } else {
        var parts := [[s[0]] + rest[0]] + rest[1..];
        assert parts[1..] == rest[1..];
        if |rest| > 1 {
          assert Join(rest, sep) == rest[0] + ([sep] + Join(rest[1..], sep));
          assert Join(parts, sep) == ([s[0]] + rest[0]) + ([sep] + Join(rest[1..], sep));
        }
        assert s == [s[0]] + s[1..];
      }
    }
  }

  /** A string without the separator splits into itself. */
  lemma {:induction false} SplitNoSeparator(s: string, sep: char)
    requires sep !in s
    ensures Split(s, sep) == [s]
  {
    if |s| > 0 {
      SplitNoSeparator(s[1..], sep);
      assert Split(s[1..], sep) == [s[1..]];
      assert [s[1..]][0] == s[1..] && [s[1..]][1..] == [];
      assert [s[0]] + s[1..] == s;
    }
  }

  /** Splitting distributes over a separator: the segments of `a` then those of `b`. */
  lemma {:induction false} SplitAppend(a: string, b: string, sep: char)
    ensures Split(a + ([sep] + b), sep) == Split(a, sep) + Split(b, sep)
  {
    var s := a + ([sep] + b);
    if |a| == 0 {
      assert s[0] == sep;
      assert s[1..] == b;
    } else {
      SplitAppend(a[1..], b, sep);
      SplitAppendStep(a, b, sep);
    }
  }

  /** The inductive step of SplitAppend: the first character of `a` joins the first segment or starts an empty one. */
  lemma SplitAppendStep(a: string, b: string, sep: char)
    requires |a| > 0
    requires Split(a[1..] + ([sep] + b), sep) == Split(a[1..], sep) + Split(b, sep)
    ensures Split(a + ([sep] + b), sep) == Split(a, sep) + Split(b, sep)
  {
    var s := a + ([sep] + b);
    DropAppend(a, [sep] + b);
    var x := Split(a[1..], sep);
    var y := Split(b, sep);
    if a[0] == sep {
      assert Split(s, sep) == [""] + (x + y) && Split(a, sep) == [""] + x by {
        SplitCons(a, sep);
        SplitCons(s, sep);
      }
      AppendAssoc([""], x, y);
    } else {
      SplitAppendCharStep(a, b, sep);
    }
  }

  lemma SplitAppendCharStep(a: string, b: string, sep: char)
    requires |a| > 0 && a[0] != sep
    requires Split(a[1..] + ([sep] + b), sep) == Split(a[1..], sep) + Split(b, sep)
    ensures Split(a + ([sep] + b), sep) == Split(a, sep) + Split(b, sep)
  {
    var s := a + ([sep] + b);
    DropAppend(a, [sep] + b);
    var x := Split(a[1..], sep);
    var y := Split(b, sep);
    var h := [a[0]] + x[0];
    assert Split(s, sep) == [h] + (x[1..] + y) && Split(a, sep) == [h] + x[1..] by {
      SplitCons(a, sep);
      SplitCons(s, sep);
      DropAppend(x, y);
    }
    AppendAssoc([h], x[1..], y);
  }

  lemma DropAppend<T>(x: seq<T>, y: seq<T>)
    requires |x| > 0
    ensures (x + y)[0] == x[0] && (x + y)[1..] == x[1..] + y
  {
  }

  lemma AppendAssoc<T>(p: seq<T>, q: seq<T>, r: seq<T>)
    ensures p + (q + r) == (p + q) + r
  {
  }

  /** One unfolding of `Split` at the first character. */
  lemma SplitCons(s: string, sep: char)
    requires |s| > 0
    ensures s[0] == sep ==> Split(s, sep) == [""] + Split(s[1..], sep)
    ensures s[0] != sep ==> Split(s, sep) == [[s[0]] + Split(s[1..], sep)[0]] + Split(s[1..], sep)[1..]
  {
  }

  /** Joining separator-free segments and splitting again gives the segments back. */
  lemma {:induction false} SplitJoin(parts: seq<string>, sep: char)
    requires |parts| > 0
    requires forall i :: 0 <= i < |parts| ==> sep !in parts[i]
    ensures Split(Join(parts, sep), sep) == parts
  {
    SplitNoSeparator(parts[0], sep);
    if |parts| > 1 {
      SplitJoin(parts[1..], sep);
      SplitAppend(parts[0], Join(parts[1..], sep), sep);
      assert parts == [parts[0]] + parts[1..];
    }
  }

  /** The characters `unicode.IsSpace` accepts. */
  predicate IsSpace(c: char) {
    var n := c as int;
    || n == 0x20 || 0x09 <= n <= 0x0D || n == 0x85 || n == 0xA0
    || n == 0x1680 || 0x2000 <= n <= 0x200A || n == 0x2028 || n == 0x2029
    || n == 0x202F || n == 0x205F || n == 0x3000
  }

  /**
    The ASCII blanks are whitespace, and no digit, letter, sign, point or `:`
    is, so trimming never reaches into a label or a number.
   */
  lemma SpaceClasses(c: char)
    ensures c == ' ' || c == '\t' || c == '\n' || c == '\r' || c == '\U{B}' || c == '\U{C}' ==> IsSpace(c)
    ensures IsSpace(c) ==> !('0' <= c <= '9') && !('a' <= c <= 'z') && !('A' <= c <= 'Z')
    ensures IsSpace(c) ==> c !in ":.+-"
  {
  }

  predicate AllSpace(s: string) {
    forall i :: 0 <= i < |s| ==> IsSpace(s[i])
  }

  /** Neither end of `s` is whitespace (vacuous for the empty string). */
  predicate NoEdgeSpace(s: string) {
    |s| == 0 || (!IsSpace(s[0]) && !IsSpace(s[|s| - 1]))
  }

  /** `s` with its leading whitespace removed. */
  function TrimLeft(s: string): (r: string)
    ensures |r| <= |s| && r == s[|s| - |r|..]
    ensures AllSpace(s[..|s| - |r|])
    ensures |r| == 0 || !IsSpace(r[0])
  {
    if |s| > 0 && IsSpace(s[0]) then TrimLeft(s[1..]) else s
  }

  /** `s` with its trailing whitespace removed. */
  function TrimRight(s: string): (r: string)
    ensures |r| <= |s| && r == s[..|r|]
    ensures AllSpace(s[|r|..])
    ensures |r| == 0 || !IsSpace(r[|r| - 1])
  {
    if |s| > 0 && IsSpace(s[|s| - 1]) then TrimRight(s[..|s| - 1]) else s
  }

  /** `strings.TrimSpace`: the infix of `s` left after removing whitespace at both ends. */
  function TrimSpace(s: string): (r: string)
    ensures NoEdgeSpace(r)
    ensures exists i, j :: 0 <= i <= j <= |s| && r == s[i..j] && AllSpace(s[..i]) && AllSpace(s[j..])
  {
    TrimBothInfix(s);
    TrimRight(TrimLeft(s))
  }

  lemma TrimBothInfix(s: string)
    ensures var r := TrimRight(TrimLeft(s));
            exists i, j :: 0 <= i <= j <= |s| && r == s[i..j] && AllSpace(s[..i]) && AllSpace(s[j..])
  {
    var l := TrimLeft(s);
    var r := TrimRight(l);
    var i := |s| - |l|;
    InfixOfInfix(s, i, r);
    assert AllSpace(s[i + |r|..]);
  }

  /** A prefix `r` of the suffix `s[i..]`, with only whitespace after it, is an infix of `s`. */
  lemma InfixOfInfix(s: string, i: nat, r: string)
    requires i <= |s| && |r| <= |s| - i && r == s[i..][..|r|]
    requires AllSpace(s[i..][|r|..])
    ensures r == s[i..i + |r|] && AllSpace(s[i + |r|..])
  {
    assert s[i..][|r|..] == s[i + |r|..];
  }

  lemma {:induction false} TrimLeftPadding(p: string, t: string)
    requires AllSpace(p)
    ensures TrimLeft(p + t) == TrimLeft(t)
  {
    if |p| > 0 {
      assert (p + t)[0] == p[0];
      assert (p + t)[1..] == p[1..] + t;
      TrimLeftPadding(p[1..], t);
    } else {
      assert p + t == t;
    }
  }

  lemma {:induction false} TrimLeftAppend(s: string, q: string)
    requires |TrimLeft(s)| > 0
    ensures TrimLeft(s + q) == TrimLeft(s) + q
  {
    if IsSpace(s[0]) {
      assert (s + q)[1..] == s[1..] + q;
      TrimLeftAppend(s[1..], q);
    }
  }

  lemma {:induction false} TrimRightPadding(t: string, q: string)
    requires AllSpace(q)
    ensures TrimRight(t + q) == TrimRight(t)
  {
    if |q| > 0 {
      var s := t + q;
      assert s[..|s| - 1] == t + q[..|q| - 1];
      TrimRightPadding(t, q[..|q| - 1]);
    } else {
      assert t + q == t;
    }
  }

  /** Whitespace padding on either side does not change the trimmed text. */
  lemma TrimSpacePadding(p: string, s: string, q: string)
    requires AllSpace(p) && AllSpace(q)
    ensures TrimSpace(p + s + q) == TrimSpace(s)
  {
    assert p + s + q == p + (s + q);
    TrimLeftPadding(p, s + q);
    assert TrimLeft(p + s + q) == TrimLeft(s + q);
    if |TrimLeft(s)| > 0 {
      TrimLeftAppend(s, q);
      TrimRightPadding(TrimLeft(s), q);
    } else {
      AllSpaceAppend(s, q);
    }
  }

  lemma AllSpaceAppend(s: string, q: string)
    requires |TrimLeft(s)| == 0 && AllSpace(q)
    ensures TrimLeft(s + q) == []
  {
    assert s[..|s|] == s;
    TrimLeftPadding(s, q);
    TrimLeftPadding(q, []);
    assert q + [] == q;
  }

  /** The trimmed text is exactly the core between two whitespace-only pads. */
  lemma TrimSpaceOfPadded(p: string, m: string, q: string)
    requires AllSpace(p) && AllSpace(q) && NoEdgeSpace(m)
    ensures TrimSpace(p + m + q) == m
  {
    TrimSpacePadding(p, m, q);
  }
}
