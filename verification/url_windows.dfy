/** Dated query URLs (main.py, `_generate_url_with_date` and
    `_generate_urls_for_period`). Dates are day numbers; the `'%Y-%m-%d'`
    rendering of a day is a parameter `dateStr`. */
module UrlWindows {
  import opened Strings

  /** The query parameter that carries a window's first day. */
  const DateKey := "start_date="

  /** Days covered by one request to the availability API. */
  const WindowDays := 15

  /** One `&`-separated piece of the URL after the rewrite: a piece that
      starts with `start_date=` gets the new date, any other is kept. */
  function RewritePart(part: string, date: string): string {
    if StartsWith(part, DateKey) then DateKey + date else part
  }

  function RewriteParts(parts: seq<string>, date: string): (r: seq<string>)
    ensures |r| == |parts|
    ensures forall i :: 0 <= i < |parts| ==> r[i] == RewritePart(parts[i], date)
  {
    if |parts| == 0 then []
    else [RewritePart(parts[0], date)] + RewriteParts(parts[1..], date)
  }

  /** No piece starts with `start_date=`. */
  predicate NoDatePart(parts: seq<string>) {
    forall i :: 0 <= i < |parts| ==> !StartsWith(parts[i], DateKey)
  }

  /** `_generate_url_with_date(base, date)` with `date` already rendered. */
  function UrlWithDate(base: string, date: string): string {
    if Contains(base, DateKey) then
      Join(RewriteParts(Split(base, '&'), date), "&")
    else
      var separator := if '?' in base then "&" else "?";
      base + separator + DateKey + date
  }

  /** A piece of a join that starts with `sub` witnesses `sub` in the join. */
  lemma {:induction false} JoinPartContains(parts: seq<string>, sep: string, sub: string, k: nat)
    requires k < |parts|
    requires StartsWith(parts[k], sub)
    ensures Contains(Join(parts, sep), sub)
    decreases k
  {
    if |parts| == 1 {
    } else if k == 0 {
      var s := Join(parts, sep);
      assert s == parts[0] + (sep + Join(parts[1..], sep));
      assert s[..|parts[0]|] == parts[0];
      PrefixStartsWith(s, |parts[0]|, sub);
    } else {
      var s := Join(parts, sep);
      var t := Join(parts[1..], sep);
      assert parts[1..][k - 1] == parts[k];
      JoinPartContains(parts[1..], sep, sub, k - 1);
      assert s == (parts[0] + sep) + t;
      assert s[|parts[0]| + |sep|..] == t;
      ContainsSuffix(s, |parts[0]| + |sep|, sub);
    }
  }

  /** A dated URL always carries a `start_date=` parameter. */
  lemma DatedUrlCarriesDate(base: string, date: string)
    ensures Contains(UrlWithDate(base, date), DateKey)
  {
    var url := UrlWithDate(base, date);
    if Contains(base, DateKey) {
      var parts := Split(base, '&');
      if NoDatePart(parts) {
        NoDatePartUnchanged(base, date);
      } else {
        var k :| 0 <= k < |parts| && StartsWith(parts[k], DateKey);
        var r := RewriteParts(parts, date);
        assert r[k] == DateKey + date;
        assert r[k][..|DateKey|] == DateKey;
        JoinPartContains(r, "&", DateKey, k);
      }
    } else {
      var sep := if '?' in base then "&" else "?";
      var i := |base + sep|;
      assert url[i..] == DateKey + date;
      assert url[i..][..|DateKey|] == DateKey;
      ContainsSuffix(url, i, DateKey);
    }
  }

  /** `start_date=` followed by a date without `&` is a single `&`-piece. */
  lemma DatedPieceHasNoAmpersand(date: string)
    requires '&' !in date
    ensures '&' !in DateKey + date
  {
    var t := DateKey + date;
    forall j | 0 <= j < |t| ensures t[j] != '&' {
      if j >= |DateKey| { assert t[j] == date[j - |DateKey|]; }
    }
  }

  /** Without `start_date=` in a URL that has a query string (`?`), the
      parameter is appended after `&`: it becomes one more `&`-piece, after
      the URL's own pieces. */
  lemma AppendedAfterQuery(base: string, date: string)
    requires !Contains(base, DateKey)
    requires '?' in base
    requires '&' !in date
    ensures Split(UrlWithDate(base, date), '&') == Split(base, '&') + [DateKey + date]
  {
    var url := UrlWithDate(base, date);
    var tail := DateKey + date;
    DatedPieceHasNoAmpersand(date);
    assert url == base + ['&'] + tail;
    SplitAppend(base, tail, '&');
    SplitFree(tail, '&');
  }

  /** Without `start_date=` in a URL that has no `?`, the parameter opens the
      query string: `?start_date=<date>` is glued onto the URL's last
      `&`-piece. */
  lemma AppendedAfterPath(base: string, date: string)
    requires !Contains(base, DateKey)
    requires '?' !in base
    requires '&' !in date
    ensures var ps := Split(base, '&');
            Split(UrlWithDate(base, date), '&') == ps[..|ps| - 1] + [ps[|ps| - 1] + "?" + DateKey + date]
  {
    var tail := "?" + DateKey + date;
    var ps := Split(base, '&');
    assert UrlWithDate(base, date) == base + tail;
    assert '&' !in tail by {
      DatedPieceHasNoAmpersand(date);
      assert tail == ['?'] + (DateKey + date);
    }
    SplitExtendLast(base, tail, '&');
    GlueAssoc(ps[|ps| - 1], "?", DateKey, date);
  }

  /** Regrouping a glued piece. Stated once over variables, so that callers
      do not make the solver regroup the `start_date=` literal. */
  lemma GlueAssoc(a: string, b: string, c: string, d: string)
    ensures a + (b + c + d) == a + b + c + d
  {
  }

  /** With `start_date=` in the URL, the `&`-pieces keep their number and
      order; those starting with `start_date=` get the new date and the
      others are unchanged. */
  lemma ReplacedParameters(base: string, date: string)
    requires Contains(base, DateKey)
    requires '&' !in date
    ensures var ps := Split(base, '&');
            var qs := Split(UrlWithDate(base, date), '&');
            && |qs| == |ps|
            && (forall i :: 0 <= i < |ps| && StartsWith(ps[i], DateKey) ==> qs[i] == DateKey + date)
            && (forall i :: 0 <= i < |ps| && !StartsWith(ps[i], DateKey) ==> qs[i] == ps[i])
  {
    var ps := Split(base, '&');
    var r := RewriteParts(ps, date);
    DatedPieceHasNoAmpersand(date);
    SplitPiecesFree(base, '&');
    SplitJoin(r, '&');
  }

  /** With `start_date=` somewhere in the URL but at the head of no
      `&`-piece (for instance right after the `?`), the URL comes back as it
      was: no date is substituted. */
  lemma NoDatePartUnchanged(base: string, date: string)
    requires Contains(base, DateKey)
    requires NoDatePart(Split(base, '&'))
    ensures UrlWithDate(base, date) == base
  {
    var ps := Split(base, '&');
    assert RewriteParts(ps, date) == ps;
    JoinSplit(base, '&');
  }

  /** Every `&`-piece of a URL without `start_date=` lacks it at its head. */
  lemma NoDatePartWithoutKey(base: string)
    requires !Contains(base, DateKey)
    ensures NoDatePart(Split(base, '&'))
  {
    var ps := Split(base, '&');
    forall i | 0 <= i < |ps| ensures !StartsWith(ps[i], DateKey) {
      if StartsWith(ps[i], DateKey) {
        SplitPartContains(base, '&', DateKey, i);
      }
    }
  }

  /** A piece that does not start with `start_date=` and has no `?` still
      does not after `?` and more text are glued on. */
  lemma GluedPieceNotDated(last: string, rest: string)
    requires !StartsWith(last, DateKey)
    requires '?' !in last
    ensures !StartsWith(last + "?" + rest, DateKey)
  {
    var x := last + "?" + rest;
    if |last| >= |DateKey| {
      assert x[..|DateKey|] == last[..|DateKey|];
    } else {
      assert x[|last|] == '?';
      assert DateKey[|last|] != '?';
    }
  }

  /** Re-dating rewrites an appended `start_date=` piece and nothing before it. */
  lemma RewriteAppendedPiece(ps: seq<string>, d1: string, d2: string)
    requires NoDatePart(ps)
    ensures RewriteParts(ps + [DateKey + d1], d2) == ps + [DateKey + d2]
  {
    var r := RewriteParts(ps + [DateKey + d1], d2);
    assert StartsWith(DateKey + d1, DateKey);
    assert r[|ps|] == DateKey + d2;
    assert forall i :: 0 <= i < |ps| ==> r[i] == ps[i];
  }

  /** Re-dating a URL whose date was appended after `&` rewrites just that
      last piece. */
  lemma RedateAppendedPiece(base: string, d1: string, d2: string)
    requires !Contains(base, DateKey)
    requires '?' in base
    requires '&' !in d1
    ensures UrlWithDate(UrlWithDate(base, d1), d2) == Join(Split(base, '&') + [DateKey + d2], "&")
  {
    var u1 := UrlWithDate(base, d1);
    var ps := Split(base, '&');
    AppendedAfterQuery(base, d1);
    DatedUrlCarriesDate(base, d1);
    NoDatePartWithoutKey(base);
    RewriteAppendedPiece(ps, d1, d2);
  }

  /** Joining the pieces of `base` and one more piece appends `&` and it. */
  lemma JoinPiecesSnoc(base: string, x: string)
    ensures Join(Split(base, '&') + [x], "&") == base + "&" + x
  {
    JoinSnoc(Split(base, '&'), x, "&");
    JoinSplit(base, '&');
  }

  /** Re-dating a URL whose date was appended after `&` behaves like dating
      the original URL. */
  lemma RedateAfterAmpersand(base: string, d1: string, d2: string)
    requires !Contains(base, DateKey)
    requires '?' in base
    requires '&' !in d1
    ensures UrlWithDate(UrlWithDate(base, d1), d2) == UrlWithDate(base, d2)
  {
    RedateAppendedPiece(base, d1, d2);
    JoinPiecesSnoc(base, DateKey + d2);
    assert base + "&" + (DateKey + d2) == base + "&" + DateKey + d2;
  }

  /** Re-dating a URL whose date was appended after `?` leaves it unchanged:
      the date right after `?` is never rewritten. */
  lemma RedateAfterQuestionMarkSticks(base: string, d1: string, d2: string)
    requires !Contains(base, DateKey)
    requires '?' !in base
    requires '&' !in d1
    ensures UrlWithDate(UrlWithDate(base, d1), d2) == UrlWithDate(base, d1)
  {
    var u1 := UrlWithDate(base, d1);
    var ps := Split(base, '&');
    var n := |ps|;
    DatedUrlCarriesDate(base, d1);
    AppendedAfterPath(base, d1);
    var qs := Split(u1, '&');
    var last := ps[n - 1];
    NoDatePartWithoutKey(base);
    SplitPiecesOmit(base, '&', '?');
    GluedPieceNotDated(last, DateKey + d1);
    GlueAssoc(last, "?", DateKey, d1);
    assert NoDatePart(qs) by {
      forall i | 0 <= i < |qs| ensures !StartsWith(qs[i], DateKey) {
        if i < n - 1 { assert qs[i] == ps[i]; }
      }
    }
    NoDatePartUnchanged(u1, d2);
  }

  /** Python's `(days + 14) // 15`, floored at zero by `range`: the number of
      15-day windows needed to cover `days` days. Dafny's `/` by a positive
      divisor floors, as Python's `//` does. */
  function WindowCount(days: int): (n: nat)
    ensures days <= 0 ==> n == 0
    ensures days > 0 ==> WindowDays * (n - 1) < days <= WindowDays * n
  {
    var q := (days + 14) / 15;
    if q < 0 then 0 else q
  }

  /** First day of window `i`. */
  function WindowStart(today: int, i: nat): int {
    today + WindowDays * i
  }

  /** `_generate_urls_for_period`: one dated URL per window, in window order. */
  method GenerateUrlsForPeriod(base: string, today: int, days: int, dateStr: int -> string)
    returns (urls: seq<string>)
    ensures |urls| == WindowCount(days)
    ensures forall i :: 0 <= i < |urls| ==> urls[i] == UrlWithDate(base, dateStr(WindowStart(today, i)))
  {
    urls := [];
    var chunks := WindowCount(days);
    var i := 0;
    while i < chunks
      invariant 0 <= i <= chunks
      invariant |urls| == i
      invariant forall j :: 0 <= j < i ==> urls[j] == UrlWithDate(base, dateStr(WindowStart(today, j)))
    {
      var startDate := WindowStart(today, i);
      var url := UrlWithDate(base, dateStr(startDate));
      urls := urls + [url];
      i := i + 1;
    }
  }

  /** Every day of the horizon `[today, today + days)` falls in exactly the
      window the generated list puts it in. */
  lemma WindowsCoverHorizon(today: int, days: int, d: int)
    requires today <= d < today + days
    ensures var i := (d - today) / WindowDays;
            i < WindowCount(days) && WindowStart(today, i) <= d < WindowStart(today, i) + WindowDays
  {
    var i := (d - today) / WindowDays;
    var n := WindowCount(days);
    assert WindowDays * i <= d - today < WindowDays * i + WindowDays;
  }

  /** The default horizon of 100 days needs 7 windows, starting 0, 15, ..., 90
      days from today. */
  lemma DefaultHorizonWindows(today: int)
    ensures WindowCount(100) == 7
    ensures WindowStart(today, 6) == today + 90
  {
  }

  /** The head piece `path?start_date=<value>` of a URL whose date is its
      first query parameter: one `&`-piece that carries `start_date=` but
      does not start with it. */
  lemma DateFirstHead(path: string, value: string)
    requires '&' !in path && '?' !in path && !Contains(path, DateKey)
    requires '&' !in value
    ensures var head := path + "?" + DateKey + value;
            '&' !in head && !StartsWith(head, DateKey) && Contains(head, DateKey)
  {
    var head := path + "?" + DateKey + value;
    DatedPieceHasNoAmpersand(value);
    assert head == path + (['?'] + (DateKey + value));
    GluedPieceNotDated(path, DateKey + value);
    assert head[|path| + 1..] == DateKey + value;
    assert head[|path| + 1..][..|DateKey|] == DateKey;
    ContainsSuffix(head, |path| + 1, DateKey);
  }

  /** A URL whose `start_date` is its first query parameter (right after
      the `?`) is never re-dated, whatever the date: every window of such a
      template asks for the same first day. */
  lemma DateFirstNeverRewritten(path: string, value: string, rest: seq<string>, date: string)
    requires '&' !in path && '?' !in path && !Contains(path, DateKey)
    requires '&' !in value
    requires forall i :: 0 <= i < |rest| ==> '&' !in rest[i]
    requires NoDatePart(rest)
    ensures var url := Join([path + "?" + DateKey + value] + rest, "&");
            UrlWithDate(url, date) == url
  {
    var head := path + "?" + DateKey + value;
    var parts := [head] + rest;
    var url := Join(parts, "&");
    DateFirstHead(path, value);
    assert forall i :: 0 < i < |parts| ==> parts[i] == rest[i - 1];
    SplitJoin(parts, '&');
    assert StartsWith(parts[0], head);
    JoinPartContains(parts, "&", head, 0);
    ContainsTransitive(url, head, DateKey);
    NoDatePartUnchanged(url, date);
  }

  /** Pieces without a `start_date=` head are left as they are. */
  lemma RewriteUndated(ps: seq<string>, date: string)
    requires NoDatePart(ps)
    ensures RewriteParts(ps, date) == ps
  {
  }

  /** The rewrite works piece by piece. */
  lemma RewriteConcat(a: seq<string>, b: seq<string>, date: string)
    ensures RewriteParts(a + b, date) == RewriteParts(a, date) + RewriteParts(b, date)
  {
    var r := RewriteParts(a + b, date);
    forall i | 0 <= i < |a + b| ensures r[i] == (RewriteParts(a, date) + RewriteParts(b, date))[i] {
      if i < |a| { assert (a + b)[i] == a[i]; } else { assert (a + b)[i] == b[i - |a|]; }
    }
  }

  /** No piece of a concatenation of `&`-free runs holds `&`. */
  lemma PiecesFreeConcat(pre: seq<string>, x: string, post: seq<string>)
    requires forall i :: 0 <= i < |pre| ==> '&' !in pre[i]
    requires forall i :: 0 <= i < |post| ==> '&' !in post[i]
    requires '&' !in x
    ensures var parts := pre + [x] + post;
            forall i :: 0 <= i < |parts| ==> '&' !in parts[i]
  {
    var parts := pre + [x] + post;
    forall i | 0 <= i < |parts| ensures '&' !in parts[i] {
      if i < |pre| { assert parts[i] == pre[i]; }
      else if i > |pre| { assert parts[i] == post[i - |pre| - 1]; }
    }
  }

  /** The template-shaped URL splits back into its pieces and carries
      `start_date=`. */
  lemma MiddleDatePieces(pre: seq<string>, prior: string, post: seq<string>)
    requires forall i :: 0 <= i < |pre| ==> '&' !in pre[i]
    requires forall i :: 0 <= i < |post| ==> '&' !in post[i]
    requires '&' !in prior
    ensures var parts := pre + [DateKey + prior] + post;
            Split(Join(parts, "&"), '&') == parts && Contains(Join(parts, "&"), DateKey)
  {
    var piece := DateKey + prior;
    var parts := pre + [piece] + post;
    assert Split(Join(parts, "&"), '&') == parts by {
      DatedPieceHasNoAmpersand(prior);
      PiecesFreeConcat(pre, piece, post);
      SplitJoin(parts, '&');
    }
    assert StartsWith(piece, DateKey) by {
      assert piece[..|DateKey|] == DateKey;
    }
    assert parts[|pre|] == piece;
    JoinPartContains(parts, "&", DateKey, |pre|);
  }

  /** A URL shaped like the configured template, with `start_date=` as a
      later query parameter (`...?a=1&start_date=<prior>&limit=15`): dating it
      replaces that one parameter's value and keeps every other piece. */
  lemma MiddleDateRewritten(pre: seq<string>, prior: string, post: seq<string>, date: string)
    requires forall i :: 0 <= i < |pre| ==> '&' !in pre[i]
    requires forall i :: 0 <= i < |post| ==> '&' !in post[i]
    requires NoDatePart(pre) && NoDatePart(post)
    requires '&' !in prior
    ensures UrlWithDate(Join(pre + [DateKey + prior] + post, "&"), date) == Join(pre + [DateKey + date] + post, "&")
  {
    var piece := DateKey + prior;
    var parts := pre + [piece] + post;
    var url := Join(parts, "&");
    MiddleDatePieces(pre, prior, post);
    assert RewriteParts(parts, date) == pre + [DateKey + date] + post by {
      assert StartsWith(piece, DateKey) by {
        assert piece[..|DateKey|] == DateKey;
      }
      assert RewriteParts([piece], date) == [DateKey + date];
      RewriteConcat(pre + [piece], post, date);
      RewriteConcat(pre, [piece], date);
      RewriteUndated(pre, date);
      RewriteUndated(post, date);
    }
    assert UrlWithDate(url, date) == Join(RewriteParts(Split(url, '&'), date), "&");
  }
}
