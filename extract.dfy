/**
 * `safe_extract` of scraper.py: an ordered-fallback lookup over a parsed
 * page. The page and its XPath engine are an oracle that, for each query,
 * either raises or returns a list of strings; `safe_extract` takes the
 * first query whose list is non-empty and renders it by mode.
 */
module Extract {
  import opened Wrappers
  import opened PyText
  import opened Utils

  /** The outcome of `tree.xpath(query)`: an exception, or a list. */
  datatype Eval = Raised | Nodes(items: seq<string>)

  /** A parsed page, seen only through what its queries return. */
  type Tree = string -> Eval

  /** The `xpaths` argument: one bare query string, or a list of them. */
  datatype Queries = One(query: string) | Many(queries: seq<string>)

  /** What `safe_extract` returns: a string, or in multiple mode a list. */
  datatype Extracted = Text(text: string) | List(items: seq<string>)

  /** `if isinstance(xpaths, str): xpaths = [xpaths]`. */
  function QueryList(xpaths: Queries): (r: seq<string>)
    ensures xpaths.One? ==> r == [xpaths.query]
    ensures xpaths.Many? ==> r == xpaths.queries
  {
    match xpaths
    case One(q) => [q]
    case Many(qs) => qs
  }

  /** The query succeeded and its result list is truthy (non-empty). */
  predicate Hits(e: Eval) {
    e.Nodes? && |e.items| > 0
  }

  /** Query `i` is the first of `qs` that hits. */
  predicate FirstHitAt(tree: Tree, qs: seq<string>, i: int) {
    && 0 <= i < |qs|
    && Hits(tree(qs[i]))
    && forall j :: 0 <= j < i ==> !Hits(tree(qs[j]))
  }

  /** No query of `qs` hits: each raises or returns an empty list. */
  predicate NoHit(tree: Tree, qs: seq<string>) {
    forall j :: 0 <= j < |qs| ==> !Hits(tree(qs[j]))
  }

  /** The `for xp in xpaths` loop with its early return. */
  function FirstHit(tree: Tree, qs: seq<string>): (r: Option<nat>)
    ensures r.Some? ==> FirstHitAt(tree, qs, r.value)
    ensures r.None? ==> NoHit(tree, qs)
    decreases |qs|
  {
    if |qs| == 0 then None
    else if Hits(tree(qs[0])) then Some(0)
    else match FirstHit(tree, qs[1..])
      case None => None
      case Some(i) => Some(i + 1)
  }

  /** `[r.strip() for r in result if r.strip()]`. */
  function NonBlank(items: seq<string>): (r: seq<string>)
    ensures |r| <= |items|
    ensures forall k :: 0 <= k < |r| ==> r[k] != "" && NoEdgeSpace(r[k])
    decreases |items|
  {
    if |items| == 0 then []
    else (if Strip(items[0]) != "" then [Strip(items[0])] else []) + NonBlank(items[1..])
  }

  /** Join mode: `" ".join([r.strip() for r in result if r.strip()])`. */
  /** The filter works node by node: filtering a concatenation filters
      each part, so the survivors keep their order. */
  lemma {:induction false} NonBlankAppend(a: seq<string>, b: seq<string>)
    ensures NonBlank(a + b) == NonBlank(a) + NonBlank(b)
    decreases |a|
  {
    if |a| == 0 {
      assert a + b == b;
    } else {
      assert (a + b)[0] == a[0];
      assert (a + b)[1..] == a[1..] + b;
      NonBlankAppend(a[1..], b);
    }
  }

  /** One node survives, stripped, exactly when it is not blank. */
  lemma NonBlankSingle(x: string)
    ensures NonBlank([x]) == if Strip(x) != "" then [Strip(x)] else []
  {
    assert [x][1..] == [];
  }

  function JoinStripped(items: seq<string>): (r: string)
    ensures NoEdgeSpace(r)
    ensures r == "" <==> |NonBlank(items)| == 0
  {
    JoinNoEdgeSpace(NonBlank(items));
    Join(" ", NonBlank(items))
  }

  /** `safe_extract(tree, xpaths, multiple, join)`. */
  function SafeExtract(tree: Tree, xpaths: Queries, multiple: bool, join: bool): (r: Extracted)
    ensures multiple <==> r.List?
    ensures forall i | FirstHitAt(tree, QueryList(xpaths), i) ::
      var hit := tree(QueryList(xpaths)[i]).items;
      && (multiple ==> r == List(hit))
      && (!multiple && join ==> r == Text(JoinStripped(hit)))
      && (!multiple && !join ==> r == Text(Strip(hit[0])))
    ensures NoHit(tree, QueryList(xpaths)) ==>
      r == if multiple then List([]) else Text(NotAvailable)
  {
    var qs := QueryList(xpaths);
    match FirstHit(tree, qs)
    case None => if multiple then List([]) else Text(NotAvailable)
    case Some(i) =>
      var hit := tree(qs[i]).items;
      if multiple then List(hit)
      else if join then Text(JoinStripped(hit))
      else Text(Strip(hit[0]))
  }

  /** A bare string behaves exactly like a one-element query list. */
  lemma BareStringIsSingleton(tree: Tree, q: string, multiple: bool, join: bool)
    ensures SafeExtract(tree, One(q), multiple, join) == SafeExtract(tree, Many([q]), multiple, join)
  {
  }

  /** Once a query hits, the queries after it are never consulted: adding
      more of them changes nothing. */
  lemma LaterQueriesIgnored(tree: Tree, qs: seq<string>, rest: seq<string>, multiple: bool, join: bool)
    requires !NoHit(tree, qs)
    ensures SafeExtract(tree, Many(qs + rest), multiple, join) == SafeExtract(tree, Many(qs), multiple, join)
  {
    var i := FirstHit(tree, qs).value;
    assert FirstHitAt(tree, qs + rest, i) by {
      assert forall j :: 0 <= j <= i ==> (qs + rest)[j] == qs[j];
    }
    assert (qs + rest)[i] == qs[i];
  }

  /** Queries that raise or return nothing are skipped: a failing prefix
      can be dropped. */
  lemma MissesSkipped(tree: Tree, qs: seq<string>, rest: seq<string>, multiple: bool, join: bool)
    requires NoHit(tree, qs)
    ensures SafeExtract(tree, Many(qs + rest), multiple, join) == SafeExtract(tree, Many(rest), multiple, join)
  {
    var all := qs + rest;
    assert forall j :: 0 <= j < |rest| ==> all[|qs| + j] == rest[j];
    match FirstHit(tree, rest)
    case None => {
      assert NoHit(tree, all) by {
        forall j | 0 <= j < |all| ensures !Hits(tree(all[j])) {
          if j < |qs| { assert all[j] == qs[j]; }
        }
      }
    }
    case Some(i) => {
      assert FirstHitAt(tree, all, |qs| + i) by {
        forall j | 0 <= j < |qs| + i ensures !Hits(tree(all[j])) {
          if j < |qs| { assert all[j] == qs[j]; }
        }
      }
    }
  }

  /** Only the queries up to the first hit are evaluated: a page that
      answers those the same way gives the same result, whatever it does
      with the rest. */
  lemma OnlyPrefixConsulted(tree: Tree, other: Tree, qs: seq<string>, i: int, multiple: bool, join: bool)
    requires FirstHitAt(tree, qs, i)
    requires forall j :: 0 <= j <= i ==> other(qs[j]) == tree(qs[j])
    ensures SafeExtract(other, Many(qs), multiple, join) == SafeExtract(tree, Many(qs), multiple, join)
  {
    assert FirstHitAt(other, qs, i);
  }

  /** In single mode a whitespace-only first hit gives "", not the next
      query's value and not "N/A". */
  lemma BlankFirstHitIsEmpty(tree: Tree, qs: seq<string>, i: int)
    requires FirstHitAt(tree, qs, i) && AllSpace(tree(qs[i]).items[0])
    ensures SafeExtract(tree, Many(qs), false, false) == Text("")
  {
    StripEmptyIff(tree(qs[i]).items[0]);
  }

  lemma {:induction false} JoinNoEdgeSpace(xs: seq<string>)
    requires forall k :: 0 <= k < |xs| ==> xs[k] != "" && NoEdgeSpace(xs[k])
    ensures NoEdgeSpace(Join(" ", xs))
    ensures Join(" ", xs) == "" <==> |xs| == 0
    decreases |xs|
  {
    if |xs| >= 2 {
      JoinNoEdgeSpace(xs[1..]);
      var tail := Join(" ", xs[1..]);
      var s := xs[0] + " " + tail;
      assert s[0] == xs[0][0];
      assert s[|s| - 1] == tail[|tail| - 1];
    }
  }

  lemma {:induction false} NonBlankEmptyIffStrip(items: seq<string>)
    ensures |NonBlank(items)| == 0 <==> forall k :: 0 <= k < |items| ==> Strip(items[k]) == ""
    decreases |items|
  {
    if |items| > 0 {
      var rest := items[1..];
      NonBlankEmptyIffStrip(rest);
      var head := if Strip(items[0]) != "" then [Strip(items[0])] else [];
      assert NonBlank(items) == head + NonBlank(rest);
      assert |NonBlank(items)| == |head| + |NonBlank(rest)|;
      if |NonBlank(items)| == 0 {
        forall k | 0 <= k < |items| ensures Strip(items[k]) == "" {
          if k > 0 { assert items[k] == rest[k - 1]; }
        }
      } else if Strip(items[0]) == "" {
        var k :| 0 <= k < |rest| && Strip(rest[k]) != "";
        assert items[k + 1] == rest[k];
      }
    }
  }

  lemma NonBlankEmptyIff(items: seq<string>)
    ensures NonBlank(items) == [] <==> forall k :: 0 <= k < |items| ==> AllSpace(items[k])
  {
    NonBlankEmptyIffStrip(items);
    forall k | 0 <= k < |items| ensures Strip(items[k]) == "" <==> AllSpace(items[k]) {
      StripEmptyIff(items[k]);
    }
  }

  /** The joined string is already stripped, and it is "" exactly when
      every element of the hit is blank. */
  lemma JoinStrippedShape(items: seq<string>)
    ensures NoEdgeSpace(JoinStripped(items))
    ensures JoinStripped(items) == "" <==> forall k :: 0 <= k < |items| ==> AllSpace(items[k])
  {
    JoinNoEdgeSpace(NonBlank(items));
    NonBlankEmptyIff(items);
  }

  /** A single node that is already stripped and not empty is its own
      join. */
  lemma JoinStrippedSingle(s: string)
    requires s != "" && NoEdgeSpace(s)
    ensures JoinStripped([s]) == s
  {
    StripOf([], s, []);
    assert [] + s + [] == s;
    assert [s][1..] == [];
    assert NonBlank([s]) == [s];
  }
}
