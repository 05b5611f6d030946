/** The search `re.search(r'/([^/]+)/?$', content)` that pulls an author slug
    out of a profile URL, computed directly and proved equal to Python's
    leftmost-then-greedy reading of the pattern. */
module UrlPattern {
  import opened Wrappers
  import opened Text

  predicate SlashFree(s: string) {
    forall i :: 0 <= i < |s| ==> s[i] != '/'
  }

  /** `$` without MULTILINE: the end of the string, or just before a newline
      that ends it. */
  predicate EndAnchor(s: string, k: int) {
    k == |s| || (0 <= k == |s| - 1 && s[k] == '\n')
  }

  /** One way for the pattern to match: `/` at `p`, the group `[^/]+` is
      `s[p+1..q]`, the optional `/` takes `s[q..k]`, and `$` holds at `k`. */
  predicate MatchAt(s: string, p: int, q: int, k: int) {
    && 0 <= p && p + 1 < q && q <= k <= q + 1 && k <= |s|
    && s[p] == '/'
    && SlashFree(s[p + 1..q])
    && (k == q + 1 ==> s[q] == '/')
    && EndAnchor(s, k)
  }

  /** The match `re.search` reports: the leftmost start, and at that start
      the longest group (the greedy `+` is tried longest first). */
  ghost predicate IsSearchResult(s: string, p: int, q: int) {
    && (exists k :: MatchAt(s, p, q, k))
    && forall p', q', k' :: MatchAt(s, p', q', k') ==> p < p' || (p == p' && q' <= q)
  }

  function LastSlash(t: string): (r: Option<nat>)
    ensures r.Some? ==> r.value < |t| && t[r.value] == '/' && SlashFree(t[r.value + 1..])
    ensures r.None? ==> SlashFree(t)
  {
    if |t| == 0 then None
    else if t[|t| - 1] == '/' then Some(|t| - 1)
    else
      var r := LastSlash(t[..|t| - 1]);
      assert r.Some? ==> t[r.value + 1..] == t[..|t| - 1][r.value + 1..] + [t[|t| - 1]];
      r
  }

  /** The slash that opens a non-empty slash-free run ending at `end`. */
  function RunBefore(s: string, end: nat): (r: Option<nat>)
    requires end <= |s|
    ensures r.Some? ==> r.value + 1 < end && s[r.value] == '/' && SlashFree(s[r.value + 1..end])
    ensures r.None? ==> forall p :: 0 <= p && p + 1 < end && s[p] == '/' ==> !SlashFree(s[p + 1..end])
  {
    match LastSlash(s[..end])
    case None => None
    case Some(p) =>
      if p + 1 < end then
        assert s[p + 1..end] == s[..end][p + 1..];
        Some(p)
      else
        assert forall p' :: 0 <= p' && p' + 1 < end && s[p'] == '/' ==> s[p' + 1..end][end - 1 - (p' + 1)] == '/';
        None
  }

  lemma RunBeforeUnique(s: string, end: nat, p: nat)
    requires end <= |s|
    requires p + 1 < end && s[p] == '/' && SlashFree(s[p + 1..end])
    ensures RunBefore(s, end) == Some(p)
  {
    var r := RunBefore(s, end);
    assert r.Some?;
  }

  /** Where the search matches, as (slash index, end of group). */
  function SearchSpan(s: string): (r: Option<(nat, nat)>)
    ensures r.Some? ==> r.value.0 + 1 < r.value.1 <= |s| && |s| - 2 <= r.value.1
    ensures r.Some? ==> s[r.value.0] == '/' && SlashFree(s[r.value.0 + 1..r.value.1])
    ensures r.Some? && r.value.1 == |s| - 1 ==> s[|s| - 1] == '/'
    ensures r.Some? && r.value.1 == |s| - 2 ==> s[|s| - 2] == '/' && s[|s| - 1] == '\n'
  {
    var n := |s|;
    if EndsWith(s, "/\n") && RunBefore(s, n - 2).Some? then Some((RunBefore(s, n - 2).value, n - 2))
    else if EndsWith(s, "/") then
      (if RunBefore(s, n - 1).Some? then Some((RunBefore(s, n - 1).value, n - 1)) else None)
    else if RunBefore(s, n).Some? then Some((RunBefore(s, n).value, n))
    else None
  }

  /** `s` ends with the two characters `/` and newline. */
  lemma EndsWithSlashNewline(s: string)
    requires |s| >= 2 && s[|s| - 2] == '/' && s[|s| - 1] == '\n'
    ensures EndsWith(s, "/\n")
  {
    assert s[|s| - 2..] == [s[|s| - 2], s[|s| - 1]];
  }

  /** `s` ends with `/`. */
  lemma EndsWithSlash(s: string)
    requires |s| >= 1 && s[|s| - 1] == '/'
    ensures EndsWith(s, "/")
  {
    assert s[|s| - 1..] == [s[|s| - 1]];
  }

  /** Every match ends its group within two characters of the end, and
      shows up in the run computed for that end. */
  lemma MatchShape(s: string, p: int, q: int, k: int)
    requires MatchAt(s, p, q, k)
    ensures |s| - 2 <= q <= |s|
    ensures q == |s| - 2 ==> EndsWith(s, "/\n") && RunBefore(s, |s| - 2) == Some(p)
    ensures q == |s| - 1 && k == |s| ==> EndsWith(s, "/") && RunBefore(s, |s| - 1) == Some(p)
    ensures q == |s| - 1 && k == q ==> s[|s| - 1] == '\n' && RunBefore(s, |s|) == Some(p)
    ensures q == |s| ==> !EndsWith(s, "/") && RunBefore(s, |s|) == Some(p)
  {
    var n := |s|;
    if q == n - 2 {
      assert k == n - 1 && s[n - 2] == '/' && s[n - 1] == '\n';
      EndsWithSlashNewline(s);
      RunBeforeUnique(s, n - 2, p);
    } else if q == n - 1 && k == n {
      EndsWithSlash(s);
      RunBeforeUnique(s, n - 1, p);
    } else if q == n - 1 && k == q {
      assert s[p + 1..n] == s[p + 1..q] + [s[n - 1]];
      RunBeforeUnique(s, n, p);
    } else if q == n {
      assert s[p + 1..n][n - 1 - (p + 1)] == s[n - 1];
      RunBeforeUnique(s, n, p);
    }
  }

  /** The search result dominates a match: it starts earlier, or at the same
      slash with a group at least as long. */
  predicate Dominates(s: string, p: int, q: int) {
    SearchSpan(s).Some? && (SearchSpan(s).value.0 < p || (SearchSpan(s).value.0 == p && q <= SearchSpan(s).value.1))
  }

  /** A string ending in `/` and a newline has its `/` second from last. */
  lemma SlashNewlineAt(s: string)
    ensures EndsWith(s, "/\n") ==> s[|s| - 2] == '/'
  {
    if EndsWith(s, "/\n") {
      assert s[|s| - 2..][0] == s[|s| - 2];
    }
  }

  /** No position inside a slash-free slice holds a slash. */
  lemma SlashFreeSlice(s: string, a: int, b: int)
    requires 0 <= a <= b <= |s| && SlashFree(s[a..b])
    ensures forall j :: a <= j < b ==> s[j] != '/'
  {
    forall j | a <= j < b
      ensures s[j] != '/'
    {
      assert s[a..b][j - a] == s[j];
    }
  }

  /** A group followed by `/` and a newline is the one the search takes. */
  lemma DominatesTwoBack(s: string, p: int, q: int, k: int)
    requires MatchAt(s, p, q, k) && q == |s| - 2
    ensures Dominates(s, p, q)
  {
    MatchShape(s, p, q, k);
  }

  /** A group followed by one character (`/`, or the final newline) is the
      one the search takes. */
  lemma DominatesOneBack(s: string, p: int, q: int, k: int)
    requires MatchAt(s, p, q, k) && q == |s| - 1
    ensures Dominates(s, p, q)
  {
    var n := |s|;
    MatchShape(s, p, q, k);
    if k == n {
      assert !EndsWith(s, "/\n") by { assert s[n - 1] == '/'; }
    } else {
      SlashNewlineAt(s);
      SlashFreeSlice(s, p + 1, q);
      assert !EndsWith(s, "/") by { assert s[n - 1..][0] == '\n'; }
    }
  }

  /** A group running to the end is dominated: the search may have preferred
      an earlier slash that `/` and a newline close. */
  lemma DominatesAtEnd(s: string, p: int, q: int, k: int)
    requires MatchAt(s, p, q, k) && q == |s|
    ensures Dominates(s, p, q)
  {
    MatchShape(s, p, q, k);
    SlashNewlineAt(s);
    SlashFreeSlice(s, p + 1, q);
  }

  /** A match anywhere is at or after the computed one: later start, or the
      same start with a group no longer. */
  lemma SpanDominates(s: string, p: int, q: int, k: int)
    requires MatchAt(s, p, q, k)
    ensures Dominates(s, p, q)
  {
    MatchShape(s, p, q, k);
    if q == |s| - 2 {
      DominatesTwoBack(s, p, q, k);
    } else if q == |s| - 1 {
      DominatesOneBack(s, p, q, k);
    } else {
      DominatesAtEnd(s, p, q, k);
    }
  }

  /** The computed span is a match. */
  lemma SpanMatches(s: string)
    requires SearchSpan(s).Some?
    ensures exists k :: MatchAt(s, SearchSpan(s).value.0, SearchSpan(s).value.1, k)
  {
    var (p, q) := SearchSpan(s).value;
    if q == |s| - 2 {
      assert MatchAt(s, p, q, q + 1);
    } else {
      assert MatchAt(s, p, q, |s|);
    }
  }

  /** The computed span is exactly the match `re.search` reports, and there is
      none when the pattern cannot match. */
  lemma SearchSpanIsSearch(s: string)
    ensures SearchSpan(s).None? ==> forall p, q, k :: !MatchAt(s, p, q, k)
    ensures SearchSpan(s).Some? ==> IsSearchResult(s, SearchSpan(s).value.0, SearchSpan(s).value.1)
  {
    forall p, q, k | MatchAt(s, p, q, k)
      ensures Dominates(s, p, q)
    {
      SpanDominates(s, p, q, k);
    }
    if SearchSpan(s).Some? {
      SpanMatches(s);
    }
  }

  /** `re.search(r'/([^/]+)/?$', s).group(1)`, or `None` when it does not match:
      the last non-empty slash-free path segment, which a single trailing `/`
      (or `/` and newline) may follow. */
  function UrlSlug(s: string): (r: Option<string>)
    ensures r.Some? ==> |r.value| > 0 && SlashFree(r.value)
    ensures r.Some? ==> EndsWith(s, r.value) || EndsWith(s, r.value + "/") || EndsWith(s, r.value + "/\n")
  {
    match SearchSpan(s)
    case None => None
    case Some((p, q)) =>
      SpanSuffix(s);
      Some(s[p + 1..q])
  }

  /** The group of the computed span ends the string, or is followed by the
      optional `/` and at most a newline. */
  lemma SpanSuffix(s: string)
    requires SearchSpan(s).Some?
    ensures var (p, q) := SearchSpan(s).value;
            var r := s[p + 1..q];
            EndsWith(s, r) || EndsWith(s, r + "/") || EndsWith(s, r + "/\n")
  {
    var (p, q) := SearchSpan(s).value;
    var n := |s|;
    if q == n {
      assert s[n - (q - p - 1)..] == s[p + 1..q];
    } else if q == n - 1 {
      assert s[q..] == "/";
      SliceThenSuffix(s, p + 1, q, "/");
    } else {
      assert s[q..] == "/\n";
      SliceThenSuffix(s, p + 1, q, "/\n");
    }
  }

  /** A slice running to the end is the slice up to a suffix, then the suffix. */
  lemma SliceThenSuffix(s: string, i: nat, j: nat, t: string)
    requires i <= j && j + |t| == |s| && EndsWith(s, t)
    ensures s[i..] == s[i..j] + t
  {
    assert s[j..] == t;
  }

  /** `UrlSlug` is what Python's regular-expression search captures: nothing
      when the pattern cannot match, else the group of the leftmost, greediest
      match. */
  lemma UrlSlugIsSearch(s: string)
    ensures UrlSlug(s).None? ==> forall p, q, k :: !MatchAt(s, p, q, k)
    ensures UrlSlug(s).Some? ==> exists p, q :: IsSearchResult(s, p, q) && 0 <= p < q <= |s| && UrlSlug(s).value == s[p + 1..q]
  {
    SearchSpanIsSearch(s);
    if SearchSpan(s).Some? {
      var (p, q) := SearchSpan(s).value;
      assert IsSearchResult(s, p, q);
    }
  }
}
