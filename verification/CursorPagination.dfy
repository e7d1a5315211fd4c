/** Cursor pagination of the tool, resource and prompt lists, over a registry that does not change between
    requests; the registry is the sequence in which its map is iterated. */
module CursorPagination {
  import opened Wrappers

  const DEFAULT_LIMIT := 100
  const MAX_LIMIT := 1000

  /** The limit used for a request: absent and non-positive limits mean 100, and 1000 is the most. */
  function EffectiveLimit(requested: Option<int>): (limit: nat)
    ensures 1 <= limit <= 1000
    ensures requested.Some? && 1 <= requested.value <= 1000 ==> limit == requested.value
    ensures requested.Some? && requested.value > 1000 ==> limit == 1000
    ensures requested.None? || requested.value <= 0 ==> limit == 100
  {
    if requested.None? || requested.value <= 0 then DEFAULT_LIMIT
    else if requested.value > MAX_LIMIT then MAX_LIMIT
    else requested.value
  }

  datatype Page<T> = Page(items: seq<T>, next: Option<int>)

  function Min(a: int, b: int): (m: int)
    ensures m <= a && m <= b && (m == a || m == b)
  {
    if a < b then a else b
  }

  /** What the role sees from a position of the registry on, in registry order. */
  function VisibleFrom<T>(registry: seq<T>, sees: T -> bool, k: nat): seq<T>
    requires k <= |registry|
    decreases |registry| - k
  {
    if k == |registry| then []
    else (if sees(registry[k]) then [registry[k]] else []) + VisibleFrom(registry, sees, k + 1)
  }

  /** What the role sees. Prompts are seen by every role. */
  function Visible<T>(registry: seq<T>, sees: T -> bool): seq<T> {
    VisibleFrom(registry, sees, 0)
  }

  function Clamp(cursor: int, n: nat): nat {
    if cursor < 0 then 0 else Min(cursor, n)
  }

  /** A slice of what is visible, with a next cursor unless that equals the size of the whole registry. */
  function Slice<T>(visible: seq<T>, total: nat, cursor: int, limit: nat): Page<T> {
    var start := Clamp(cursor, |visible|);
    var end := Min(start + limit, |visible|);
    Page(visible[start..end], if end < total then Some(end) else None)
  }

  function PageAt<T>(registry: seq<T>, sees: T -> bool, cursor: int, limit: nat): Page<T> {
    Slice(Visible(registry, sees), |registry|, cursor, limit)
  }

  /** A page holds what is visible from the cursor on, a cursor outside the list meaning its nearer end, and as much of
      it as was asked for: never more than a positive limit, exactly that much up to 1000 while there is so much left,
      1000 of a greater limit, and 100 when there is none. */
  lemma PageHolds<T>(registry: seq<T>, sees: T -> bool, cursor: int, requested: Option<int>)
    ensures var visible, page := Visible(registry, sees), PageAt(registry, sees, cursor, EffectiveLimit(requested));
            var from := if cursor < 0 then 0 else if cursor > |visible| then |visible| else cursor;
            var left := |visible| - from;
            && |page.items| <= left && page.items == visible[from..from + |page.items|]
            && (requested.Some? && requested.value > 0 ==> |page.items| <= requested.value)
            && (requested.Some? && 1 <= requested.value <= 1000 ==> |page.items| == Min(requested.value, left))
            && (requested.Some? && requested.value > 1000 ==> |page.items| == Min(1000, left))
            && (requested.None? || requested.value <= 0 ==> |page.items| == Min(100, left))
            && page.next == if from + |page.items| < |registry| then Some(from + |page.items|) else None
  {
    var visible := Visible(registry, sees);
    assert Clamp(cursor, |visible|) == if cursor < 0 then 0 else if cursor > |visible| then |visible| else cursor;
  }

  /** When the loop ends, either nothing is left or the page is full. */
  lemma SliceOfParts<T>(skipped: seq<T>, items: seq<T>, left: seq<T>, total: nat, cursor: int, limit: nat)
    requires |items| <= limit && (left == [] || |items| == limit > 0)
    requires |skipped| == Clamp(cursor, |skipped| + |items|)
    ensures var end := |skipped| + |items|;
            Slice(skipped + items + left, total, cursor, limit) == Page(items, if end < total then Some(end) else None)
  {
  }

  lemma MoveOne<T>(a: seq<T>, b: seq<T>, x: T, rest: seq<T>)
    ensures a + b + ([x] + rest) == a + (b + [x]) + rest
    ensures b == [] ==> a + b + ([x] + rest) == (a + [x]) + b + rest
  {
  }

  /** The loop of the three list handlers. */
  method ListPage<T>(registry: seq<T>, sees: T -> bool, requestedCursor: Option<int>, requestedLimit: Option<int>)
    returns (page: Page<T>)
    ensures page == PageAt(registry, sees, if requestedCursor.Some? then requestedCursor.value else 0,
                           EffectiveLimit(requestedLimit))
  {
    var cursor := 0;
    var limit: int := DEFAULT_LIMIT;
    if requestedCursor.Some? { cursor := requestedCursor.value; }
    if requestedLimit.Some? { limit := requestedLimit.value; }
    if limit <= 0 { limit := DEFAULT_LIMIT; }
    if limit > MAX_LIMIT { limit := MAX_LIMIT; }
    assert limit == EffectiveLimit(requestedLimit);
    ghost var visible := Visible(registry, sees);
    ghost var skipped: seq<T> := [];
    ghost var rest := VisibleFrom(registry, sees, 0);
    var items: seq<T> := [];
    var i, count, k := 0, 0, 0;
    while k < |registry|
      invariant 0 <= k <= |registry| && rest == VisibleFrom(registry, sees, k)
      invariant skipped + items + rest == visible
      invariant i == |skipped| + |items| && count == |items| <= limit
      invariant |skipped| == Clamp(cursor, i)
    {
      ghost var rest' := VisibleFrom(registry, sees, k + 1);
      if !sees(registry[k]) {
        assert rest == rest';
        k := k + 1;
        continue;
      }
      MoveOne(skipped, items, registry[k], rest');
      if i < cursor {
        skipped, rest := skipped + [registry[k]], rest';
        i, k := i + 1, k + 1;
        continue;
      }
      if count >= limit { break; }
      items, rest := items + [registry[k]], rest';
      count, i, k := count + 1, i + 1, k + 1;
    }
    SliceOfParts(skipped, items, rest, |registry|, cursor, limit);
    page := Page(items, if i < |registry| then Some(i) else None);
    assert page == Slice(visible, |registry|, cursor, limit);
  }

  // ----- following the cursor -----

  /** The pages a client collects from a cursor on: until one has no next cursor or fewer than `limit` entries. */
  ghost function Follow<T>(visible: seq<T>, total: nat, cursor: nat, limit: nat): seq<seq<T>>
    requires limit >= 1 && cursor <= |visible|
    decreases |visible| - cursor
  {
    var page := Slice(visible, total, cursor, limit);
    [page.items] + if page.next.None? || |page.items| < limit then []
                   else Follow(visible, total, page.next.value, limit)
  }

  /** All the pages, over the registry. */
  ghost function Pages<T>(registry: seq<T>, sees: T -> bool, limit: nat): seq<seq<T>>
    requires limit >= 1
  {
    Follow(Visible(registry, sees), |registry|, 0, limit)
  }

  ghost function Concat<T>(pages: seq<seq<T>>): seq<T> {
    if pages == [] then [] else pages[0] + Concat(pages[1..])
  }

  /** pages is n divided by limit, rounded up. */
  ghost predicate IsCeiling(pages: int, n: int, limit: nat) {
    (pages - 1) * limit < n <= pages * limit
  }

  /** pages is one more than n divided by limit, rounded down. */
  ghost predicate IsFloorPlusOne(pages: int, n: int, limit: nat) {
    (pages - 1) * limit <= n < pages * limit
  }

  lemma OneMorePage(pages: int, n: int, limit: nat)
    ensures IsCeiling(pages, n, limit) ==> IsCeiling(pages + 1, n + limit, limit)
    ensures IsFloorPlusOne(pages, n, limit) ==> IsFloorPlusOne(pages + 1, n + limit, limit)
  {
    assert pages * limit == (pages - 1) * limit + limit;
    assert (pages + 1) * limit == pages * limit + limit;
  }

  lemma {:induction false} VisibleFromSize<T>(registry: seq<T>, sees: T -> bool, k: nat)
    requires k <= |registry|
    ensures |VisibleFrom(registry, sees, k)| <= |registry| - k
    ensures (forall x :: x in registry ==> sees(x)) ==> VisibleFrom(registry, sees, k) == registry[k..]
    decreases |registry| - k
  {
    if k == |registry| {
    } else {
      VisibleFromSize(registry, sees, k + 1);
    }
  }

  lemma FullSlice<T>(visible: seq<T>, total: nat, cursor: nat, limit: nat)
    requires cursor + limit <= |visible|
    ensures visible[cursor..] == Slice(visible, total, cursor, limit).items + visible[cursor + limit..]
  {
  }

  lemma ConcatCons<T>(first: seq<T>, rest: seq<seq<T>>)
    ensures Concat([first] + rest) == first + Concat(rest)
  {
    assert ([first] + rest)[1..] == rest;
  }

  lemma {:induction false} FollowCollects<T>(visible: seq<T>, total: nat, cursor: nat, limit: nat)
    requires limit >= 1 && cursor <= |visible| <= total
    ensures Concat(Follow(visible, total, cursor, limit)) == visible[cursor..]
    decreases |visible| - cursor
  {
    var page := Slice(visible, total, cursor, limit);
    if page.next.None? || |page.items| < limit {
      ConcatCons(page.items, []);
    } else {
      var rest := Follow(visible, total, cursor + limit, limit);
      FollowCollects(visible, total, cursor + limit, limit);
      assert Follow(visible, total, cursor, limit) == [page.items] + rest;
      ConcatCons(page.items, rest);
      FullSlice(visible, total, cursor, limit);
    }
  }

  lemma {:induction false} FollowLength<T>(visible: seq<T>, total: nat, cursor: nat, limit: nat)
    requires limit >= 1 && cursor <= |visible| <= total
    ensures var pages, left := |Follow(visible, total, cursor, limit)|, |visible| - cursor;
            if |visible| == total && left > 0 then IsCeiling(pages, left, limit)
            else IsFloorPlusOne(pages, left, limit)
    decreases |visible| - cursor
  {
    var page := Slice(visible, total, cursor, limit);
    if page.next.None? || |page.items| < limit {
    } else {
      FollowLength(visible, total, cursor + limit, limit);
      OneMorePage(|Follow(visible, total, cursor + limit, limit)|, |visible| - cursor - limit, limit);
    }
  }

  /** Following the cursor from the start, the pages up to the first one without a next cursor or with fewer than
      `limit` entries hold exactly what the role sees, each entry once and in order; a role that does not see
      everything ends on a short page, number floor(v / limit) + 1. */
  lemma PagesAreExact<T>(registry: seq<T>, sees: T -> bool, limit: nat)
    requires limit >= 1
    ensures Concat(Pages(registry, sees, limit)) == Visible(registry, sees)
    ensures |Visible(registry, sees)| < |registry| ==>
              IsFloorPlusOne(|Pages(registry, sees, limit)|, |Visible(registry, sees)|, limit)
  {
    VisibleFromSize(registry, sees, 0);
    FollowCollects(Visible(registry, sees), |registry|, 0, limit);
    FollowLength(Visible(registry, sees), |registry|, 0, limit);
  }

  /** Where everything is visible, as for prompts, the pages hold the whole registry and there are
      max(1, ceil(n / limit)) of them. */
  lemma PromptPagesAreExact<T>(prompts: seq<T>, sees: T -> bool, limit: nat)
    requires limit >= 1 && forall x :: x in prompts ==> sees(x)
    ensures Concat(Pages(prompts, sees, limit)) == prompts
    ensures prompts == [] ==> |Pages(prompts, sees, limit)| == 1
    ensures prompts != [] ==> IsCeiling(|Pages(prompts, sees, limit)|, |prompts|, limit)
  {
    VisibleFromSize(prompts, sees, 0);
    FollowCollects(prompts, |prompts|, 0, limit);
    FollowLength(prompts, |prompts|, 0, limit);
  }

  // ----- stopping -----

  /** The cursor of the k-th request of a client that follows the next cursor while there is one. */
  ghost function NthCursor<T>(visible: seq<T>, total: nat, limit: nat, k: nat): Option<int> {
    if k == 0 then Some(0)
    else
      var c := NthCursor(visible, total, limit, k - 1);
      if c.None? then None else Slice(visible, total, c.value, limit).next
  }

  lemma {:induction false} CursorsAdvance<T>(visible: seq<T>, total: nat, limit: nat, k: nat)
    requires limit >= 1 && |visible| <= total
    ensures var c := NthCursor(visible, total, limit, k);
            && (c.Some? ==> Min(k, |visible|) <= c.value <= |visible|)
            && (|visible| < total ==> c.Some?)
            && (|visible| == total && k > total ==> c.None?)
  {
    if k == 0 {
    } else {
      CursorsAdvance(visible, total, limit, k - 1);
    }
  }

  lemma {:induction false} SeesAllIff<T>(registry: seq<T>, sees: T -> bool, k: nat)
    requires k <= |registry|
    ensures |VisibleFrom(registry, sees, k)| == |registry| - k <==> forall x :: x in registry[k..] ==> sees(x)
    decreases |registry| - k
  {
    if k == |registry| {
    } else {
      SeesAllIff(registry, sees, k + 1);
      VisibleFromSize(registry, sees, k + 1);
      assert registry[k..] == [registry[k]] + registry[k + 1..];
    }
  }

  /** A client that follows the cursor until it is absent stops if and only if its role sees everything:
      the end test compares with the size of the unfiltered registry. */
  lemma FollowingStopsIff<T>(registry: seq<T>, sees: T -> bool, limit: nat)
    requires limit >= 1
    ensures (exists k :: NthCursor(Visible(registry, sees), |registry|, limit, k) == None) <==>
            forall x :: x in registry ==> sees(x)
  {
    var visible, total := Visible(registry, sees), |registry|;
    VisibleFromSize(registry, sees, 0);
    SeesAllIff(registry, sees, 0);
    if |visible| == total {
      CursorsAdvance(visible, total, limit, total + 1);
    } else {
      forall k: nat ensures NthCursor(visible, total, limit, k) != None {
        CursorsAdvance(visible, total, limit, k);
      }
    }
  }
}
