/**
 * The list of stakeable pools: every listed token becomes a card item
 * carrying its staking flags and APR, and the items are ordered by two
 * successive stable sorts, first MIR before the others, then APR
 * descending. Because the second sort is stable and decides the order, the
 * net effect is APR-descending with MIR winning only ties of APR.
 */
module StakeList {
  import opened Quotes
  import opened StableSort

  /** The governance token's symbol. */
  const MIR: string := "MIR"

  /**
   * Quotes the list reads: LP tokens staked and stakable by the user, LP
   * tokens staked in total, and the APR statistics by token.
   */
  datatype StakeQuotes = StakeQuotes(
    lpStaked: map<string, real>,
    lpStakable: map<string, real>,
    lpTotalStaked: map<string, real>,
    apr: map<string, real>)

  /** A card of the list (the props given to each stake card). */
  datatype StakeItem = StakeItem(
    token: string,
    symbol: string,
    staked: bool,
    stakable: bool,
    apr: real,
    totalStaked: real,
    to: string,
    emphasize: bool)

  /** `getItem`: the card item of one listed token. */
  function GetItem(d: Descriptor, url: string, getSymbol: string -> string, q: StakeQuotes): (item: StakeItem)
    ensures item.token == d.token && item.symbol == getSymbol(d.token)
    ensures item.staked <==> Find(q.lpStaked, d.token) > 0.0
    ensures item.stakable <==> Find(q.lpStakable, d.token) > 0.0
    ensures d.token in q.apr ==> item.apr == q.apr[d.token]
    ensures d.token !in q.apr ==> item.apr == 0.0
    ensures item.totalStaked == Find(q.lpTotalStaked, d.token)
    ensures item.to == url + "/" + d.token
    ensures item.emphasize <==> item.symbol == MIR
  {
    var symbol := getSymbol(d.token);
    StakeItem(
      d.token,
      symbol,
      Find(q.lpStaked, d.token) > 0.0,
      Find(q.lpStakable, d.token) > 0.0,
      if d.token in q.apr then q.apr[d.token] else 0.0,
      Find(q.lpTotalStaked, d.token),
      url + "/" + d.token,
      symbol == MIR)
  }

  /** `listed.map(getItem)`. */
  function Items(listed: seq<Descriptor>, url: string, getSymbol: string -> string, q: StakeQuotes): (items: seq<StakeItem>)
    ensures |items| == |listed|
    ensures forall i :: 0 <= i < |listed| ==> items[i] == GetItem(listed[i], url, getSymbol, q)
  {
    if listed == [] then []
    else [GetItem(listed[0], url, getSymbol, q)] + Items(listed[1..], url, getSymbol, q)
  }

  /** `Number(symbol === "MIR")`: the key of the first sort. */
  function MirRank(item: StakeItem): (k: real)
    ensures k == 1.0 || k == 0.0
    ensures k == 1.0 <==> item.symbol == "MIR"
  {
    if item.symbol == "MIR" then 1.0 else 0.0
  }

  /**
   * `apr[token]`: the key of the second sort. It is applied only to listed
   * tokens, which all carry an APR entry, so the zero branch is never taken.
   */
  function AprRank(apr: map<string, real>): (rank: StakeItem -> real)
    ensures forall item: StakeItem :: item.token in apr ==> rank(item) == apr[item.token]
  {
    (item: StakeItem) => if item.token in apr then apr[item.token] else 0.0
  }

  /** Every listed token has an APR statistic. */
  ghost predicate AprListed(listed: seq<Descriptor>, apr: map<string, real>)
  {
    forall i :: 0 <= i < |listed| ==> listed[i].token in apr
  }

  /** The first sort: MIR items before all others. */
  function MirFirst(items: seq<StakeItem>): (r: seq<StakeItem>)
    ensures multiset(r) == multiset(items)
    ensures forall i, j :: 0 <= i < j < |r| && r[i].symbol != MIR ==> r[j].symbol != MIR
  {
    SortDesc(items, MirRank)
  }

  /** The rendered order: the items sorted MIR-first, then by APR descending. */
  function Ranked(listed: seq<Descriptor>, url: string, getSymbol: string -> string, q: StakeQuotes): (r: seq<StakeItem>)
    requires AprListed(listed, q.apr)
    ensures |r| == |listed|
    ensures multiset(r) == multiset(Items(listed, url, getSymbol, q))
    ensures forall i :: 0 <= i < |r| ==> r[i].token in q.apr
    ensures forall i, j :: 0 <= i < j < |r| ==> q.apr[r[i].token] >= q.apr[r[j].token]
  {
    var items := Items(listed, url, getSymbol, q);
    var r := SortDesc(MirFirst(items), AprRank(q.apr));
    forall i | 0 <= i < |r| ensures r[i].token in q.apr {
      assert r[i] in multiset(items);
      var k :| 0 <= k < |items| && items[k] == r[i];
      assert r[i].token == listed[k].token;
    }
    r
  }

  // ----- properties -----

  /** The first sort keeps the MIR items, and the other items, each in listing order. */
  lemma MirFirstKeepsOrder(items: seq<StakeItem>)
    ensures Group(MirFirst(items), MirRank, 1.0) == Group(items, MirRank, 1.0)
    ensures Group(MirFirst(items), MirRank, 0.0) == Group(items, MirRank, 0.0)
  {
    SortDescStableAt(items, MirRank, 1.0);
    SortDescStableAt(items, MirRank, 0.0);
  }

  /** Among items of equal APR, the MIR items come first. */
  lemma RankedTiesPutMirFirst(listed: seq<Descriptor>, url: string, getSymbol: string -> string, q: StakeQuotes)
    requires AprListed(listed, q.apr)
    ensures var r := Ranked(listed, url, getSymbol, q);
      forall i, j :: 0 <= i < j < |r| && q.apr[r[i].token] == q.apr[r[j].token] && r[j].symbol == MIR ==>
        r[i].symbol == MIR
  {
    var items := Items(listed, url, getSymbol, q);
    var r := Ranked(listed, url, getSymbol, q);
    SortAfterSortIsLex(MirFirst(items), MirRank, AprRank(q.apr));
    forall i, j | 0 <= i < j < |r| && q.apr[r[i].token] == q.apr[r[j].token] && r[j].symbol == MIR
      ensures r[i].symbol == MIR
    {
      assert LexAtLeast(r[i], r[j], AprRank(q.apr), MirRank);
    }
  }

  /**
   * Items that agree on APR and on being MIR keep their listing order: the
   * class of APR `a` and MIR rank `m` of the result lists the same items, in
   * the same order, as in `listed.map(getItem)`.
   */
  lemma RankedKeepsListingOrder(listed: seq<Descriptor>, url: string, getSymbol: string -> string, q: StakeQuotes,
                                a: real, m: real)
    requires AprListed(listed, q.apr)
    ensures var items := Items(listed, url, getSymbol, q);
      Group(Group(Ranked(listed, url, getSymbol, q), AprRank(q.apr), a), MirRank, m) ==
      Group(Group(items, AprRank(q.apr), a), MirRank, m)
  {
    var items := Items(listed, url, getSymbol, q);
    var first := MirFirst(items);
    var key := AprRank(q.apr);
    calc {
      Group(Group(Ranked(listed, url, getSymbol, q), key, a), MirRank, m);
      { SortDescStableAt(first, key, a); }
      Group(Group(first, key, a), MirRank, m);
      { GroupCommute(first, key, a, MirRank, m); }
      Group(Group(first, MirRank, m), key, a);
      { SortDescStableAt(items, MirRank, m); }
      Group(Group(items, MirRank, m), key, a);
      { GroupCommute(items, key, a, MirRank, m); }
      Group(Group(items, key, a), MirRank, m);
    }
  }

  /**
   * MIR is not pinned to the front: a MIR item whose APR is strictly lower
   * than another item's comes after it.
   */
  lemma MirNotPinned(listed: seq<Descriptor>, url: string, getSymbol: string -> string, q: StakeQuotes)
    requires AprListed(listed, q.apr)
    ensures var r := Ranked(listed, url, getSymbol, q);
      forall i, j ::
        0 <= i < |r| && 0 <= j < |r| && r[i].symbol == MIR && q.apr[r[i].token] < q.apr[r[j].token]
        ==> j < i
  {
  }

  /** Under the listing's APR entries, the displayed APR is the sort key. */
  lemma DisplayedAprIsRank(listed: seq<Descriptor>, url: string, getSymbol: string -> string, q: StakeQuotes)
    requires AprListed(listed, q.apr)
    ensures var r := Ranked(listed, url, getSymbol, q);
      forall i :: 0 <= i < |r| ==> r[i].apr == AprRank(q.apr)(r[i])
  {
    var items := Items(listed, url, getSymbol, q);
    var r := Ranked(listed, url, getSymbol, q);
    forall i | 0 <= i < |r| ensures r[i].apr == AprRank(q.apr)(r[i]) {
      assert r[i] in multiset(items);
      var k :| 0 <= k < |items| && items[k] == r[i];
    }
  }

  // ----- a worked example -----

  function ExampleSymbol(token: string): string
  {
    if token == "m" then MIR else token
  }

  function ExampleListing(): seq<Descriptor>
  {
    [Descriptor("c", "c", "C", Listed), Descriptor("a", "a", "A", Listed), Descriptor("m", "m", "M", Listed)]
  }

  function ExampleApr(): map<string, real>
  {
    map["c" := 0.1, "a" := 0.2, "m" := 0.1]
  }

  lemma ExampleAprListed()
    ensures AprListed(ExampleListing(), ExampleApr())
    ensures "c" in ExampleApr() && "a" in ExampleApr() && "m" in ExampleApr()
    ensures ExampleApr()["c"] == 0.1 && ExampleApr()["a"] == 0.2 && ExampleApr()["m"] == 0.1
  {
    var listed, apr := ExampleListing(), ExampleApr();
    assert listed[0].token == "c" && listed[1].token == "a" && listed[2].token == "m";
    assert "c" in apr && "a" in apr && "m" in apr;
  }

  lemma ExampleItems(q: StakeQuotes)
    ensures var items := Items(ExampleListing(), "/stake", ExampleSymbol, q);
      && items == [items[0], items[1], items[2]]
      && items[0].token == "c" && items[1].token == "a" && items[2].token == "m"
      && MirRank(items[0]) == 0.0 && MirRank(items[1]) == 0.0 && MirRank(items[2]) == 1.0
  {
    var items := Items(ExampleListing(), "/stake", ExampleSymbol, q);
    assert items[0].symbol == "c" && items[1].symbol == "a" && items[2].symbol == MIR;
  }

  /**
   * Listed as c (APR 0.1), a (APR 0.2), MIR (APR 0.1): the first sort gives
   * MIR, c, a; the second gives a, MIR, c. MIR is not first, yet it beats c,
   * listed before it, on their tied APR.
   */
  lemma TieOnlyExample()
    ensures AprListed(ExampleListing(), ExampleApr())
    ensures var q := StakeQuotes(map[], map[], map[], ExampleApr());
      var r := Ranked(ExampleListing(), "/stake", ExampleSymbol, q);
      |r| == 3 && r[0].token == "a" && r[1].token == "m" && r[2].token == "c"
  {
    ExampleAprListed();
    var q := StakeQuotes(map[], map[], map[], ExampleApr());
    var items := Items(ExampleListing(), "/stake", ExampleSymbol, q);
    ExampleItems(q);
    var c, a, m := items[0], items[1], items[2];
    ThreeSortMir(c, a, m);
    assert MirFirst(items) == [m, c, a];
    var key := AprRank(q.apr);
    assert key(c) == 0.1 && key(a) == 0.2 && key(m) == 0.1;
    ThreeSortApr(m, c, a, key);
    var r := Ranked(ExampleListing(), "/stake", ExampleSymbol, q);
    assert r == SortDesc(MirFirst(items), key);
    assert r == [a, m, c];
  }

  lemma ThreeSortMir(c: StakeItem, a: StakeItem, m: StakeItem)
    requires MirRank(c) == 0.0 && MirRank(a) == 0.0 && MirRank(m) == 1.0
    ensures SortDesc([c, a, m], MirRank) == [m, c, a]
  {
    SortDescCons([c, a, m], MirRank);
    assert [c, a, m][1..] == [a, m];
    SortTwo(a, m, MirRank);
    InsertSecond(c, m, a, MirRank);
  }

  lemma ThreeSortApr(m: StakeItem, c: StakeItem, a: StakeItem, key: StakeItem -> real)
    requires key(m) == 0.1 && key(c) == 0.1 && key(a) == 0.2
    ensures SortDesc([m, c, a], key) == [a, m, c]
  {
    SortDescCons([m, c, a], key);
    assert [m, c, a][1..] == [c, a];
    SortTwo(c, a, key);
    InsertSecond(m, a, c, key);
  }

  /** Sorting two items whose keys are strictly increasing swaps them. */
  lemma SortTwo(x: StakeItem, y: StakeItem, key: StakeItem -> real)
    requires key(x) < key(y)
    ensures SortDesc([x, y], key) == [y, x]
  {
    SortDescCons([x, y], key);
    assert [x, y][1..] == [y];
    SortDescCons([y], key);
    assert [y][1..] == [];
    InsertBefore(y, [], key);
    InsertAfter(x, [y], key);
    assert [y][1..] == [];
    InsertBefore(x, [], key);
    assert [y] + [x] == [y, x];
  }

  /** Inserting an item that ties the second and trails the first puts it in the middle. */
  lemma InsertSecond(x: StakeItem, y: StakeItem, z: StakeItem, key: StakeItem -> real)
    requires key(y) > key(x) && key(x) >= key(z)
    ensures Insert(x, [y, z], key) == [y, x, z]
  {
    assert Sorted([y, z], key);
    InsertAfter(x, [y, z], key);
    assert [y, z][1..] == [z];
    InsertBefore(x, [z], key);
    assert [y] + [x, z] == [y, x, z];
  }
}
