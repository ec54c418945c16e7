/** The channel catalog: the records the catalog API returns, the lookup of
    the selected channel by name (`Array.prototype.findIndex`), and the
    search filter the list overlay shows. */
module Catalog {
  import Text

  datatype Option<T> = None | Some(value: T)

  /** One catalog entry. The name is the only identity a channel has: it
      keys the rendered list and decides which channel is "the selected
      one". */
  datatype Channel = Channel(name: string, logo: string, url: string)

  /** No two entries share a name. The catalog API is trusted to deliver
      this; nothing in the application checks it. */
  predicate UniqueNames(catalog: seq<Channel>) {
    forall i, j :: 0 <= i < j < |catalog| ==> catalog[i].name != catalog[j].name
  }

  /** `catalog.findIndex(ch => ch.name === name)`: the first position whose
      name is `name`, or -1 when there is none. */
  function FindIndex(catalog: seq<Channel>, name: string): (r: int)
    ensures -1 <= r < |catalog|
    ensures r == -1 <==> forall i :: 0 <= i < |catalog| ==> catalog[i].name != name
    ensures 0 <= r ==> catalog[r].name == name
    ensures forall i :: 0 <= i < r ==> catalog[i].name != name
  {
    if catalog == [] then -1
    else if catalog[0].name == name then 0
    else
      var k := FindIndex(catalog[1..], name);
      if k == -1 then -1 else k + 1
  }

  /** With unique names, looking up the name of the entry at `i` finds `i`. */
  lemma FindIndexOfUnique(catalog: seq<Channel>, i: int)
    requires UniqueNames(catalog)
    requires 0 <= i < |catalog|
    ensures FindIndex(catalog, catalog[i].name) == i
  {
  }

  /** The filter callback: a channel is shown for `query` when its
      lower-cased name includes the lower-cased query, that is, when some
      stretch of the name equals the query up to ASCII case. */
  function Matches(c: Channel, query: string): (r: bool)
    ensures r <==> exists i :: Text.OccursIgnoringCaseAt(c.name, query, i)
  {
    forall i ensures Text.OccursAt(Text.Lower(c.name), Text.Lower(query), i)
                     <==> Text.OccursIgnoringCaseAt(c.name, query, i) {
      Text.OccursInLower(c.name, query, i);
    }
    Text.Contains(Text.Lower(c.name), Text.Lower(query))
  }

  /** `channels.filter(ch => ch.name.toLowerCase().includes(query.toLowerCase()))`:
      the matching entries, in catalog order. */
  function Filter(catalog: seq<Channel>, query: string): (r: seq<Channel>)
    ensures |r| <= |catalog|
    ensures forall c :: c in r <==> c in catalog && Matches(c, query)
  {
    if catalog == [] then []
    else if Matches(catalog[0], query) then [catalog[0]] + Filter(catalog[1..], query)
    else Filter(catalog[1..], query)
  }

  /** `xs` is obtained from `ys` by deleting entries, keeping the order of the
      rest. */
  predicate SubsequenceOf<T(==)>(xs: seq<T>, ys: seq<T>)
    decreases |ys|
  {
    if xs == [] then true
    else if ys == [] then false
    else if xs[0] == ys[0] then SubsequenceOf(xs[1..], ys[1..])
    else SubsequenceOf(xs, ys[1..])
  }

  /** The filtered list keeps catalog order. */
  lemma {:induction false} FilterIsSubsequence(catalog: seq<Channel>, query: string)
    ensures SubsequenceOf(Filter(catalog, query), catalog)
    decreases |catalog|
  {
    if catalog != [] {
      FilterIsSubsequence(catalog[1..], query);
      var r := Filter(catalog, query);
      if !Matches(catalog[0], query) && r != [] {
        // r is Filter(catalog[1..], query), whose head matches and so is not catalog[0]
        assert r[0] in r;
      }
    }
  }

  /** Filtering distributes over concatenation: the filter looks at each
      entry on its own, so it is fixed by what it does to single entries. */
  lemma {:induction false} FilterAppend(a: seq<Channel>, b: seq<Channel>, query: string)
    ensures Filter(a + b, query) == Filter(a, query) + Filter(b, query)
    decreases |a|
  {
    if a == [] {
      assert a + b == b;
    } else {
      assert (a + b)[1..] == a[1..] + b;
      FilterAppend(a[1..], b, query);
    }
  }

  /** A single entry survives exactly when it matches. */
  lemma FilterSingleton(c: Channel, query: string)
    ensures Filter([c], query) == if Matches(c, query) then [c] else []
  {
  }

  /** Every name includes the empty query, so an empty search box shows the
      whole catalog. */
  lemma {:induction false} FilterEmptyQuery(catalog: seq<Channel>)
    ensures Filter(catalog, "") == catalog
    decreases |catalog|
  {
    if catalog != [] {
      assert Text.Lower("") == "";
      Text.ContainsEmpty(Text.Lower(catalog[0].name));
      FilterEmptyQuery(catalog[1..]);
      assert [catalog[0]] + catalog[1..] == catalog;
    }
  }

  /** Filtering an already filtered list by the same query changes nothing. */
  lemma {:induction false} FilterIdempotent(catalog: seq<Channel>, query: string)
    ensures Filter(Filter(catalog, query), query) == Filter(catalog, query)
    decreases |catalog|
  {
    if catalog != [] {
      FilterIdempotent(catalog[1..], query);
      if Matches(catalog[0], query) {
        var rest := Filter(catalog[1..], query);
        FilterAppend([catalog[0]], rest, query);
        FilterSingleton(catalog[0], query);
      }
    }
  }
}
