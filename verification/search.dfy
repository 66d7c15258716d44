/** The search client `DuckDuckGoSearch`: the cache key, the time-limited cache, and the list of
    result links a live search yields. The HTTP exchange is a parameter: the result page's anchors
    of class `result__a` (their `href`, or `""` where it is missing) and its raw text, or `None`
    where the request fails. Hashing is a parameter too, and time is in microseconds. */
module Search {
  import opened Wrappers
  import Text
  import Regex
  import Urls

  // ---------------------------------------------------------------------------------------------
  // The cache key.

  const Salt: string := "ddg_v2"

  /** Lower-cased, stripped, every whitespace run replaced by one space. */
  function NormalizeQuery(q: string): string {
    Text.Collapse(Text.Strip(Text.Lower(q)))
  }

  /** The SHA-256 hex digest of the normalised query followed by the salt; `hash` stands for the
      digest. */
  function CacheKey(hash: string -> string, q: string): string {
    hash(NormalizeQuery(q) + Salt)
  }

  lemma LoweredChars(s: string, c: char)
    requires Text.IsLowered(s) && c in s
    ensures Text.LowerChar(c) == c
  {
    var i :| 0 <= i < |s| && s[i] == c;
  }

  /** A normalised query is its own normal form. */
  lemma NormalizeIdempotent(q: string)
    ensures NormalizeQuery(NormalizeQuery(q)) == NormalizeQuery(q)
  {
    var l := Text.Lower(q);
    var t := Text.Strip(l);
    var n := Text.Collapse(t);
    Text.LowerIsLowered(q);
    Text.StripChars(l);
    Text.CollapseChars(t);
    forall i | 0 <= i < |n|
      ensures Text.LowerChar(n[i]) == n[i]
    {
      if n[i] != ' ' {
        assert n[i] in t;
        LoweredChars(l, n[i]);
      }
    }
    Text.LoweredFixed(n);
    Text.CollapseTrimmed(t);
    Text.StripTrimmed(n);
    Text.CollapseIsCollapsed(t);
    Text.CollapseCollapsed(n);
  }

  /** The key depends on the query only through its normal form, whatever the hash. */
  lemma CacheKeyCanonical(hash: string -> string, q: string)
    ensures CacheKey(hash, q) == CacheKey(hash, NormalizeQuery(q))
  {
    NormalizeIdempotent(q);
  }

  /** Case, surrounding whitespace and inner whitespace runs do not change the key. */
  lemma CacheKeyExample(hash: string -> string, q: string)
    requires q == " Foo  Bar "
    ensures CacheKey(hash, q) == CacheKey(hash, "foo bar")
  {
    var l := " foo  bar ";
    forall i | 0 <= i < |q|
      ensures Text.LowerChar(q[i]) == l[i]
    {
      // One case per position of the literal, so each character is evaluated.
      assert i == 0 || i == 1 || i == 2 || i == 3 || i == 4 || i == 5 || i == 6 || i == 7 || i == 8 || i == 9;
    }
    assert Text.Lower(q) == l;
    StripExample(l);
    CollapseExample("foo  bar");
    NormalizeIdempotent(q);
  }

  lemma StripExample(l: string)
    requires l == " foo  bar "
    ensures Text.Strip(l) == "foo  bar"
  {
    var m := l[1..];
    assert m == "foo  bar ";
    assert Text.Strip(l) == Text.Strip(m) by { assert Text.IsSpace(l[0]); }
    var n := m[..|m| - 1];
    assert n == "foo  bar";
    assert Text.Strip(m) == Text.Strip(n) by { assert !Text.IsSpace(m[0]) && Text.IsSpace(m[|m| - 1]); }
    Text.StripTrimmed(n);
  }

  lemma CollapseExample(t: string)
    requires t == "foo  bar"
    ensures Text.Collapse(t) == "foo bar"
  {
    var a, sp, b := "foo", "  ", "bar";
    assert t == a + sp + b;
    assert !Text.IsSpace(a[0]) && !Text.IsSpace(a[1]) && !Text.IsSpace(a[2]);
    assert !Text.IsSpace(b[0]) && !Text.IsSpace(b[1]) && !Text.IsSpace(b[2]);
    assert Text.IsSpace(sp[0]) && Text.IsSpace(sp[1]);
    Text.CollapseTwoWords(a, sp, b);
  }

  // ---------------------------------------------------------------------------------------------
  // The cache.

  /** A cached result list and when it was stored. */
  datatype Entry = Entry(urls: seq<string>, storedAt: int)

  /** `capacity` is kept but never consulted: nothing is ever evicted. */
  datatype Searcher = Searcher(cache: map<string, Entry>, ttl: int, capacity: int)

  /** `DuckDuckGoSearch()` with its default arguments. */
  function Fresh(): (s: Searcher)
    ensures s.cache == map[] && s.ttl == 1800 && s.capacity == 200
  {
    Searcher(map[], 1800, 200)
  }

  /** The key is cached and its entry is younger than `ttl` seconds at time `now`. */
  predicate Hit(s: Searcher, key: string, now: int) {
    key in s.cache && now - s.cache[key].storedAt < s.ttl * 1_000_000
  }

  /** A new searcher has nothing cached, so every search it does is a live one. */
  lemma FreshMisses(key: string, now: int)
    ensures !Hit(Fresh(), key, now)
  {
  }

  /** An entry is served for exactly `ttl` seconds after it is stored, the last microsecond
      included, and not after that. */
  lemma HitWindow(s: Searcher, key: string, now: int)
    requires key in s.cache
    ensures Hit(s, key, now) <==> now < s.cache[key].storedAt + s.ttl * 1_000_000
  {
  }

  // ---------------------------------------------------------------------------------------------
  // Result links.

  /** What the server sent back: the `href` of each `a.result__a` (`""` where it has none), and the
      page text. */
  datatype SearchResponse = SearchResponse(anchors: seq<string>, body: string)

  /** The cleaned links that pass the domain test, in order, repeats included. */
  function Candidates(hrefs: seq<string>): (r: seq<string>)
    ensures forall x :: x in r ==> Urls.IsRuDomain(x) && exists h :: h in hrefs && Urls.CleanUrl(h) == Some(x)
  {
    if hrefs == [] then []
    else
      var rest := Candidates(hrefs[1..]);
      var c := if hrefs[0] == "" then None else Urls.CleanUrl(hrefs[0]);
      if c.Some? && Urls.IsRuDomain(c.value) then
        assert hrefs[0] in hrefs;
        [c.value] + rest
      else rest
  }

  /** The loop of `search` over the links: a link is appended when it is cleaned, not yet listed,
      and passes the domain test. `listed` doubles as the `seen` set, which always holds exactly
      the listed links. */
  function Collect(hrefs: seq<string>, listed: seq<string>): seq<string> {
    if hrefs == [] then listed
    else
      var next :=
        if hrefs[0] == "" then listed
        else match Urls.CleanUrl(hrefs[0])
          case None => listed
          case Some(c) => if c !in listed && Urls.IsRuDomain(c) then listed + [c] else listed;
      Collect(hrefs[1..], next)
  }

  /** Keeps the first occurrence of each element, appending to `acc`. */
  function DedupOnto(xs: seq<string>, acc: seq<string>): seq<string> {
    if xs == [] then acc else DedupOnto(xs[1..], if xs[0] in acc then acc else acc + [xs[0]])
  }

  /** The loop is the de-duplication of the candidate links. */
  lemma {:induction false} CollectIsDedup(hrefs: seq<string>, listed: seq<string>)
    ensures Collect(hrefs, listed) == DedupOnto(Candidates(hrefs), listed)
  {
    if hrefs != [] {
      CollectIsDedup(hrefs[1..], listed);
      var next :=
        if hrefs[0] == "" then listed
        else match Urls.CleanUrl(hrefs[0])
          case None => listed
          case Some(c) => if c !in listed && Urls.IsRuDomain(c) then listed + [c] else listed;
      CollectIsDedup(hrefs[1..], next);
      var c := Urls.CleanUrl(hrefs[0]);
      if hrefs[0] != "" && c.Some? && Urls.IsRuDomain(c.value) {
        assert Candidates(hrefs) == [c.value] + Candidates(hrefs[1..]);
      } else {
        assert Candidates(hrefs) == Candidates(hrefs[1..]);
      }
    }
  }

  predicate Distinct(xs: seq<string>) {
    forall i, j :: 0 <= i < j < |xs| ==> xs[i] != xs[j]
  }

  /** Index of the first occurrence of `x`. */
  function FirstIndex(xs: seq<string>, x: string): (k: nat)
    requires x in xs
    ensures k < |xs| && xs[k] == x && x !in xs[..k]
  {
    if xs[0] == x then 0
    else
      var k := FirstIndex(xs[1..], x);
      assert xs[..k + 1] == [xs[0]] + xs[1..][..k];
      k + 1
  }

  lemma {:induction false} DedupOntoPrefix(xs: seq<string>, acc: seq<string>)
    ensures |acc| <= |DedupOnto(xs, acc)| && DedupOnto(xs, acc)[..|acc|] == acc
  {
    if xs != [] {
      var acc' := if xs[0] in acc then acc else acc + [xs[0]];
      DedupOntoPrefix(xs[1..], acc');
      assert acc'[..|acc|] == acc;
    }
  }

  /** De-duplication loses nothing and adds nothing. */
  lemma {:induction false} DedupOntoMembers(xs: seq<string>, acc: seq<string>)
    ensures forall y :: y in DedupOnto(xs, acc) <==> y in acc || y in xs
  {
    if xs != [] {
      var acc' := if xs[0] in acc then acc else acc + [xs[0]];
      DedupOntoMembers(xs[1..], acc');
      assert xs == [xs[0]] + xs[1..];
    }
  }

  /** De-duplication onto distinct elements yields distinct elements. */
  lemma {:induction false} DedupOntoDistinct(xs: seq<string>, acc: seq<string>)
    requires Distinct(acc)
    ensures Distinct(DedupOnto(xs, acc))
  {
    if xs != [] {
      var acc' := if xs[0] in acc then acc else acc + [xs[0]];
      assert Distinct(acc');
      DedupOntoDistinct(xs[1..], acc');
    }
  }

  /** The elements of `r` from index `from` on occur in `xs`, in the order of their first
      appearance there. */
  predicate InFirstOrder(xs: seq<string>, r: seq<string>, from: nat) {
    forall i, j :: from <= i < j < |r| ==>
      r[i] in xs && r[j] in xs && FirstIndex(xs, r[i]) < FirstIndex(xs, r[j])
  }

  /** The elements added to `acc` come in the order of their first appearance in `xs`. */
  lemma {:induction false} DedupOntoOrder(xs: seq<string>, acc: seq<string>)
    requires Distinct(acc)
    ensures InFirstOrder(xs, DedupOnto(xs, acc), |acc|)
  {
    if xs == [] {
      assert DedupOnto(xs, acc) == acc;
    } else {
      var x := xs[0];
      var acc' := if x in acc then acc else acc + [x];
      assert Distinct(acc');
      DedupOntoOrder(xs[1..], acc');
      DedupOntoPrefix(xs[1..], acc');
      DedupOntoDistinct(xs[1..], acc');
      DedupOntoMembers(xs[1..], acc');
      var r := DedupOnto(xs[1..], acc');
      assert DedupOnto(xs, acc) == r;
      assert x in acc';
      forall k | |acc'| <= k < |r|
        ensures r[k] in xs[1..] && r[k] != x
      {
        NotInPrefix(r, acc', k);
      }
      assert x !in acc ==> r[|acc|] == x by {
        if x !in acc { assert acc'[|acc|] == x; }
      }
      OrderedCons(xs, r, |acc|, |acc'|);
    }
  }

  /** One step of the order argument: `r` is ordered by first appearance in `xs[1..]` past
      `later`, and the one element it may hold between `from` and `later` is `xs[0]`. */
  lemma OrderedCons(xs: seq<string>, r: seq<string>, from: nat, later: nat)
    requires xs != [] && later <= |r|
    requires later == from || (later == from + 1 && r[from] == xs[0])
    requires InFirstOrder(xs[1..], r, later)
    requires forall k :: later <= k < |r| ==> r[k] in xs[1..] && r[k] != xs[0]
    ensures InFirstOrder(xs, r, from)
  {
    forall i, j | from <= i < j < |r|
      ensures r[i] in xs && r[j] in xs && FirstIndex(xs, r[i]) < FirstIndex(xs, r[j])
    {
      FirstShift(xs, r[j]);
      if i >= later {
        FirstShift(xs, r[i]);
      } else {
        assert r[i] == xs[0];
      }
    }
  }

  /** In a distinct list, an element past a prefix is not in that prefix. */
  lemma NotInPrefix(r: seq<string>, p: seq<string>, k: nat)
    requires Distinct(r) && |p| <= k < |r| && r[..|p|] == p
    ensures r[k] !in p
  {
  }

  lemma FirstShift(xs: seq<string>, y: string)
    requires xs != [] && y in xs[1..] && y != xs[0]
    ensures y in xs && FirstIndex(xs, y) == FirstIndex(xs[1..], y) + 1
  {
  }

  /** The links a live search lists: those of the result anchors, or, when none qualifies, those
      of every `href="http..."` in the page text. */
  function LiveResults(resp: SearchResponse): seq<string> {
    var first := Collect(resp.anchors, []);
    if first != [] then first else Collect(RawLinks(resp.body), [])
  }

  /** `href=["'](https?://[^"']+)["']`. */
  const Quote: Regex.Atom := Regex.Atom(Regex.In([('"', '"'), ('\'', '\'')]), 1, Regex.Upto(1))

  const HrefPattern: Regex.Pattern :=
    Regex.Pattern(
      Regex.Literal("href=") + [Quote] + Regex.Literal("http") + [Regex.Atom(Regex.In([('s', 's')]), 0, Regex.Upto(1))]
      + Regex.Literal("://") + [Regex.Atom(Regex.NotIn([('"', '"'), ('\'', '\'')]), 1, Regex.Unbounded), Quote],
      false)

  lemma HrefPatternShape()
    ensures |HrefPattern.atoms| == 16 && Regex.MinLength(HrefPattern.atoms) > 0
  {
    assert HrefPattern.atoms[0] == Regex.Lit('h');
  }

  /** `re.findall` of the pattern: its group, from the `http` to before the closing quote. */
  function RawLinks(body: string): seq<string> {
    HrefPatternShape();
    var ms := Regex.FindAll(HrefPattern, body);
    seq(|ms|, k requires 0 <= k < |ms| => Regex.Span(HrefPattern.atoms, false, body, ms[k], 6, 15))
  }

  /** `urls[:10]`. */
  function Take10(xs: seq<string>): (r: seq<string>)
    ensures |r| <= 10 && |r| <= |xs| && r == xs[..|r|]
    ensures |xs| >= 10 ==> |r| == 10
    ensures |xs| < 10 ==> r == xs
  {
    if |xs| <= 10 then xs else xs[..10]
  }

  /** `DuckDuckGoSearch.search`: the cached list while it is fresh, otherwise a live search whose
      first ten links are stored (stamped `storedAt`, the clock read after the request) and
      returned; a failed request returns nothing and stores nothing. */
  function Search(s: Searcher, hash: string -> string, query: string, now: int, storedAt: int,
                  response: Option<SearchResponse>): (r: (Searcher, seq<string>))
    ensures var key := CacheKey(hash, query);
      && (Hit(s, key, now) ==> r == (s, s.cache[key].urls))
      && (!Hit(s, key, now) && response.None? ==> r == (s, []))
      && (!Hit(s, key, now) && response.Some? ==>
            r.0 == s.(cache := s.cache[key := Entry(r.1, storedAt)])
            && r.1 == Take10(LiveResults(response.value)))
    ensures r.0.ttl == s.ttl && r.0.capacity == s.capacity
    ensures s.cache.Keys <= r.0.cache.Keys
    ensures forall k :: k in s.cache && k != CacheKey(hash, query) ==> r.0.cache[k] == s.cache[k]
  {
    var key := CacheKey(hash, query);
    if Hit(s, key, now) then (s, s.cache[key].urls)
    else match response
      case None => (s, [])
      case Some(resp) =>
        var urls := Take10(LiveResults(resp));
        (s.(cache := s.cache[key := Entry(urls, storedAt)]), urls)
  }

  /** What a live search stores is served back, unchanged and without a request, to every query
      with the same normal form until `ttl` seconds have passed since it was stored. */
  lemma StoredThenServed(s: Searcher, hash: string -> string, q: string, q2: string,
                         now: int, storedAt: int, resp: SearchResponse,
                         now2: int, storedAt2: int, resp2: Option<SearchResponse>)
    requires !Hit(s, CacheKey(hash, q), now)
    requires NormalizeQuery(q2) == NormalizeQuery(q)
    requires now2 < storedAt + s.ttl * 1_000_000
    ensures var first := Search(s, hash, q, now, storedAt, Some(resp));
      Search(first.0, hash, q2, now2, storedAt2, resp2) == first
  {
    var first := Search(s, hash, q, now, storedAt, Some(resp));
    HitWindow(first.0, CacheKey(hash, q), now2);
  }

  /** Once `ttl` seconds have passed since a live search stored its links, a query with the same
      normal form no longer gets them: it searches live again, storing and returning the new links,
      or returns nothing and keeps the stale entry when the request fails. */
  lemma ExpiredSearchesLive(s: Searcher, hash: string -> string, q: string, q2: string,
                            now: int, storedAt: int, resp: SearchResponse,
                            now2: int, storedAt2: int, resp2: Option<SearchResponse>)
    requires !Hit(s, CacheKey(hash, q), now)
    requires NormalizeQuery(q2) == NormalizeQuery(q)
    requires now2 >= storedAt + s.ttl * 1_000_000
    ensures var first := Search(s, hash, q, now, storedAt, Some(resp));
      var second := Search(first.0, hash, q2, now2, storedAt2, resp2);
      && second.1 == (if resp2.Some? then Take10(LiveResults(resp2.value)) else [])
      && (resp2.None? ==> second.0 == first.0)
      && (resp2.Some? ==> second.0.cache[CacheKey(hash, q)] == Entry(second.1, storedAt2))
  {
    var first := Search(s, hash, q, now, storedAt, Some(resp));
    HitWindow(first.0, CacheKey(hash, q), now2);
  }

  /** A live search lists at most ten distinct links, each the cleaned form of a link on the
      page and passing the domain test. */
  lemma LiveResultsSpec(resp: SearchResponse)
    ensures var r := Take10(LiveResults(resp));
      && |r| <= 10 && Distinct(r)
      && forall x :: x in r ==>
           Urls.IsRuDomain(x) && Urls.Acceptable(x)
           && exists h :: (h in resp.anchors || h in RawLinks(resp.body)) && Urls.CleanUrl(h) == Some(x)
  {
    var hrefs := if Collect(resp.anchors, []) != [] then resp.anchors else RawLinks(resp.body);
    LiveOrder(hrefs);
    var full := LiveResults(resp);
    assert full == Collect(hrefs, []);
    var r := Take10(full);
    forall x | x in r
      ensures Urls.IsRuDomain(x) && Urls.Acceptable(x)
      ensures exists h :: (h in resp.anchors || h in RawLinks(resp.body)) && Urls.CleanUrl(h) == Some(x)
    {
      assert x in full;
      var h :| h in hrefs && Urls.CleanUrl(h) == Some(x);
    }
  }

  /** The links the loop lists are the candidate links without repeats, in the order in which
      each first appears. */
  lemma LiveOrder(hrefs: seq<string>)
    ensures var r := Collect(hrefs, []);
      && Distinct(r)
      && (forall x :: x in r <==> x in Candidates(hrefs))
      && (forall i, j :: 0 <= i < j < |r| ==>
            r[i] in Candidates(hrefs) && r[j] in Candidates(hrefs)
            && FirstIndex(Candidates(hrefs), r[i]) < FirstIndex(Candidates(hrefs), r[j]))
  {
    CollectIsDedup(hrefs, []);
    DedupOntoDistinct(Candidates(hrefs), []);
    DedupOntoMembers(Candidates(hrefs), []);
    DedupOntoOrder(Candidates(hrefs), []);
    assert InFirstOrder(Candidates(hrefs), Collect(hrefs, []), 0);
  }
}
