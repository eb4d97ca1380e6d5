/** String operations the watcher relies on, with Python's meaning:
    `s.startswith(p)`, `sub in s`, `s.split(c)` for a one-character
    separator, `sep.join(parts)` and `str(n)` for a natural number. */
module Strings {

  /** `s.startswith(prefix)`. */
  predicate StartsWith(s: string, prefix: string) {
    |prefix| <= |s| && s[..|prefix|] == prefix
  }

  /** `sub in s`: `sub` occurs in `s` as a contiguous block. */
  predicate Contains(s: string, sub: string)
    decreases |s|
  {
    StartsWith(s, sub) || (|s| > 0 && Contains(s[1..], sub))
  }

  /** `sub` is the slice of `s` that starts at position `i`. */
  predicate OccursAt(s: string, sub: string, i: nat) {
    i + |sub| <= |s| && s[i..i + |sub|] == sub
  }

  /** `sub in s` exactly when `sub` occurs at some position of `s`. */
  lemma {:induction false} ContainsAt(s: string, sub: string)
    ensures Contains(s, sub) <==> exists i: nat :: OccursAt(s, sub, i)
    decreases |s|
  {
    if |s| > 0 {
      ContainsAt(s[1..], sub);
      if Contains(s, sub) {
        if StartsWith(s, sub) {
          assert OccursAt(s, sub, 0);
        } else {
          var j: nat :| OccursAt(s[1..], sub, j);
          assert s[1..][j..j + |sub|] == s[j + 1..j + 1 + |sub|];
          assert OccursAt(s, sub, j + 1);
        }
      }
      if exists i: nat :: OccursAt(s, sub, i) {
        var i: nat :| OccursAt(s, sub, i);
        if i > 0 {
          assert s[1..][i - 1..i - 1 + |sub|] == s[i..i + |sub|];
          assert OccursAt(s[1..], sub, i - 1);
        }
      }
    } else {
      assert Contains(s, sub) <==> |sub| == 0;
      assert |sub| == 0 ==> OccursAt(s, sub, 0);
    }
  }

  /** An occurrence in a suffix is an occurrence in the whole string. */
  lemma {:induction false} ContainsSuffix(s: string, i: nat, sub: string)
    requires i <= |s|
    requires Contains(s[i..], sub)
    ensures Contains(s, sub)
    decreases i
  {
    if i > 0 {
      assert s[1..][i - 1..] == s[i..];
      ContainsSuffix(s[1..], i - 1, sub);
    }
  }

  /** Occurrence is transitive: `sub in mid` and `mid in s` give `sub in s`. */
  lemma {:induction false} ContainsTransitive(s: string, mid: string, sub: string)
    requires Contains(s, mid)
    requires Contains(mid, sub)
    ensures Contains(s, sub)
    decreases |s|
  {
    if StartsWith(s, mid) {
      ContainsInPrefix(s, mid, sub);
    } else {
      ContainsTransitive(s[1..], mid, sub);
      ContainsSuffix(s, 1, sub);
    }
  }

  /** An occurrence in a prefix of `s` is an occurrence in `s`. */
  lemma {:induction false} ContainsInPrefix(s: string, pre: string, sub: string)
    requires StartsWith(s, pre)
    requires Contains(pre, sub)
    ensures Contains(s, sub)
    decreases |pre|
  {
    if StartsWith(pre, sub) {
      assert pre[..|sub|] == s[..|sub|];
    } else {
      assert StartsWith(s[1..], pre[1..]) by {
        assert s[1..][..|pre[1..]|] == s[..|pre|][1..];
      }
      ContainsInPrefix(s[1..], pre[1..], sub);
    }
  }

  /** An occurrence at the start of a prefix is an occurrence in the whole string. */
  lemma PrefixStartsWith(s: string, k: nat, sub: string)
    requires k <= |s|
    requires StartsWith(s[..k], sub)
    ensures StartsWith(s, sub)
  {
    assert s[..k][..|sub|] == s[..|sub|];
  }

  /** `s.split(c)`: the maximal `c`-free pieces of `s`, in order; a string
      with `k` separators has `k + 1` pieces, some possibly empty. */
  function Split(s: string, c: char): (parts: seq<string>)
    ensures |parts| >= 1
    decreases |s|
  {
    if |s| == 0 then [""]
    else
      var rest := Split(s[1..], c);
      if s[0] == c then [""] + rest
      else [[s[0]] + rest[0]] + rest[1..]
  }

  /** No piece of a split holds the separator. */
  lemma {:induction false} SplitPiecesFree(s: string, c: char)
    ensures forall k :: 0 <= k < |Split(s, c)| ==> c !in Split(s, c)[k]
    decreases |s|
  {
    if |s| > 0 {
      var rest := Split(s[1..], c);
      SplitPiecesFree(s[1..], c);
      var ps := Split(s, c);
      forall k | 0 <= k < |ps| ensures c !in ps[k] {
        if s[0] == c {
          if k > 0 { assert ps[k] == rest[k - 1]; }
        } else if k == 0 {
          assert ps[0] == [s[0]] + rest[0];
        } else {
          assert ps[k] == rest[k];
        }
      }
    }
  }

  /** `sep.join(parts)`. */
  function Join(parts: seq<string>, sep: string): string
  {
    if |parts| == 0 then ""
    else if |parts| == 1 then parts[0]
    else parts[0] + sep + Join(parts[1..], sep)
  }

  /** Joining two or more parts puts the separator after the first one. */
  lemma JoinCons(p: string, parts: seq<string>, sep: string)
    requires |parts| >= 1
    ensures Join([p] + parts, sep) == p + sep + Join(parts, sep)
  {
    assert ([p] + parts)[1..] == parts;
  }

  /** Prepending a character to the first part prepends it to the join. */
  lemma JoinConsHead(x: char, p: string, parts: seq<string>, sep: string)
    ensures Join([[x] + p] + parts, sep) == [x] + Join([p] + parts, sep)
  {
    if |parts| >= 1 {
      JoinCons([x] + p, parts, sep);
      JoinCons(p, parts, sep);
    }
  }

  /** Appending a part appends the separator and that part. */
  lemma {:induction false} JoinSnoc(parts: seq<string>, q: string, sep: string)
    requires |parts| >= 1
    ensures Join(parts + [q], sep) == Join(parts, sep) + sep + q
    decreases |parts|
  {
    if |parts| == 1 {
      assert parts + [q] == [parts[0]] + [q];
      JoinCons(parts[0], [q], sep);
    } else {
      assert parts + [q] == [parts[0]] + (parts[1..] + [q]);
      JoinCons(parts[0], parts[1..] + [q], sep);
      JoinSnoc(parts[1..], q, sep);
      JoinCons(parts[0], parts[1..], sep);
      assert [parts[0]] + parts[1..] == parts;
    }
  }

  /** Round trip: joining the pieces of a split restores the string. */
  lemma {:induction false} JoinSplit(s: string, c: char)
    ensures Join(Split(s, c), [c]) == s
    decreases |s|
  {
    if |s| > 0 {
      var rest := Split(s[1..], c);
      JoinSplit(s[1..], c);
      if s[0] == c {
        JoinCons("", rest, [c]);
      } else {
        JoinConsHead(s[0], rest[0], rest[1..], [c]);
        assert [rest[0]] + rest[1..] == rest;
      }
      assert s == [s[0]] + s[1..];
    }
  }

  /** Extending the first piece at the front commutes with appending more
      pieces. */
  lemma ConsHeadAppend(x: string, pa: seq<string>, pb: seq<string>)
    requires |pa| >= 1
    ensures [x + (pa + pb)[0]] + (pa + pb)[1..] == ([x + pa[0]] + pa[1..]) + pb
  {
    assert (pa + pb)[1..] == pa[1..] + pb;
  }

  /** Splitting at a separator splits the two sides independently. */
  lemma {:induction false} SplitAppend(a: string, b: string, c: char)
    ensures Split(a + [c] + b, c) == Split(a, c) + Split(b, c)
    decreases |a|
  {
    var s := a + [c] + b;
    if |a| == 0 {
      assert s[0] == c && s[1..] == b;
    } else {
      assert s[0] == a[0] && s[1..] == a[1..] + [c] + b;
      SplitAppend(a[1..], b, c);
      if a[0] != c {
        ConsHeadAppend([a[0]], Split(a[1..], c), Split(b, c));
      } else {
        assert [""] + (Split(a[1..], c) + Split(b, c)) == ([""] + Split(a[1..], c)) + Split(b, c);
      }
    }
  }

  /** A separator-free string is its own single piece. */
  lemma {:induction false} SplitFree(s: string, c: char)
    requires c !in s
    ensures Split(s, c) == [s]
    decreases |s|
  {
    if |s| > 0 {
      assert c !in s[1..] by {
        forall j | 0 <= j < |s| - 1 ensures s[1..][j] != c { assert s[1..][j] == s[j + 1]; }
      }
      SplitFree(s[1..], c);
      assert [s[0]] + s[1..] == s;
    }
  }

  /** Round trip: splitting a join of separator-free parts restores the parts. */
  lemma {:induction false} SplitJoin(parts: seq<string>, c: char)
    requires |parts| >= 1
    requires forall i :: 0 <= i < |parts| ==> c !in parts[i]
    ensures Split(Join(parts, [c]), c) == parts
    decreases |parts|
  {
    SplitFree(parts[0], c);
    if |parts| > 1 {
      SplitJoin(parts[1..], c);
      SplitAppend(parts[0], Join(parts[1..], [c]), c);
      assert [parts[0]] + parts[1..] == parts;
    }
  }

  /** The last piece grows by `b` whether the pieces are first extended at
      the front by one character or by one empty piece. */
  lemma ExtendLastCons(pt: seq<string>, head: seq<string>, x: string, b: string)
    requires |pt| >= 1 && |head| <= 1
    ensures var n := |pt|;
            var r := pt[..n - 1] + [pt[n - 1] + b];
            var pa := (if |head| == 0 then [x + pt[0]] + pt[1..] else head + pt);
            var ra := (if |head| == 0 then [x + r[0]] + r[1..] else head + r);
            ra == pa[..|pa| - 1] + [pa[|pa| - 1] + b]
  {
    var n := |pt|;
    if |head| == 0 && n == 1 {
      assert x + (pt[0] + b) == (x + pt[0]) + b;
    }
  }

  /** Appending separator-free text only extends the last piece. */
  lemma {:induction false} SplitExtendLast(a: string, b: string, c: char)
    requires c !in b
    ensures var pa := Split(a, c);
            Split(a + b, c) == pa[..|pa| - 1] + [pa[|pa| - 1] + b]
    decreases |a|
  {
    if |a| == 0 {
      SplitFree(b, c);
      assert a + b == b;
    } else {
      assert (a + b)[0] == a[0] && (a + b)[1..] == a[1..] + b;
      SplitExtendLast(a[1..], b, c);
      ExtendLastCons(Split(a[1..], c), if a[0] == c then [""] else [], [a[0]], b);
    }
  }

  /** The first piece of a split is a prefix of the string. */
  lemma {:induction false} SplitHeadPrefix(s: string, c: char)
    ensures StartsWith(s, Split(s, c)[0])
    decreases |s|
  {
    if |s| > 0 && s[0] != c {
      SplitHeadPrefix(s[1..], c);
      var r0 := Split(s[1..], c)[0];
      assert s[..1 + |r0|] == [s[0]] + s[1..][..|r0|];
    }
  }

  /** Every piece of a split occurs in the string: at offset `i` it starts
      the rest of the string. */
  lemma {:induction false} SplitPieceAt(s: string, c: char, k: nat) returns (i: nat)
    requires k < |Split(s, c)|
    ensures i <= |s| && StartsWith(s[i..], Split(s, c)[k])
    decreases |s|
  {
    if |s| == 0 {
      i := 0;
    } else if k == 0 {
      SplitHeadPrefix(s, c);
      i := 0;
    } else {
      var j := SplitPieceAt(s[1..], c, if s[0] == c then k - 1 else k);
      i := j + 1;
      assert s[1..][j..] == s[i..];
    }
  }

  /** A piece of a split that starts with `sub` witnesses `sub in s`. */
  lemma SplitPartContains(s: string, c: char, sub: string, k: nat)
    requires k < |Split(s, c)|
    requires StartsWith(Split(s, c)[k], sub)
    ensures Contains(s, sub)
  {
    var i := SplitPieceAt(s, c, k);
    var piece := Split(s, c)[k];
    assert s[i..][..|sub|] == piece[..|sub|];
    assert Contains(s[i..], sub);
    ContainsSuffix(s, i, sub);
  }

  /** A character absent from `s` is absent from every piece of its split. */
  lemma SplitPiecesOmit(s: string, c: char, x: char)
    requires x !in s
    ensures forall k :: 0 <= k < |Split(s, c)| ==> x !in Split(s, c)[k]
  {
    forall k | 0 <= k < |Split(s, c)| ensures x !in Split(s, c)[k] {
      var i := SplitPieceAt(s, c, k);
      var piece := Split(s, c)[k];
      forall j | 0 <= j < |piece| ensures piece[j] != x {
        assert piece[j] == s[i + j];
      }
    }
  }

  /** The decimal digit character for `d`. */
  function DigitChar(d: nat): (ch: char)
    requires d < 10
    ensures '0' <= ch <= '9'
  {
    ('0' as int + d) as char
  }

  predicate IsDigits(s: string) {
    forall i :: 0 <= i < |s| ==> '0' <= s[i] <= '9'
  }

  /** `str(n)` for a natural number: decimal, no sign, no leading zeros. */
  function NatToString(n: nat): (s: string)
    ensures |s| >= 1 && IsDigits(s)
    ensures |s| > 1 ==> s[0] != '0'
    decreases n
  {
    if n < 10 then [DigitChar(n)]
    else NatToString(n / 10) + [DigitChar(n % 10)]
  }

  /** Reads a decimal digit string back as a number. */
  function ParseNat(s: string): nat
    requires IsDigits(s)
  {
    if |s| == 0 then 0
    else ParseNat(s[..|s| - 1]) * 10 + (s[|s| - 1] as int - '0' as int)
  }

  /** Round trip: the decimal rendering of `n` reads back as `n`. */
  lemma {:induction false} ParseNatToString(n: nat)
    ensures ParseNat(NatToString(n)) == n
    decreases n
  {
    if n >= 10 {
      var s := NatToString(n);
      assert s[..|s| - 1] == NatToString(n / 10);
      ParseNatToString(n / 10);
    }
  }
}
