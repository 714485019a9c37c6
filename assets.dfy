/** src/Asset/Asset.js: the generic asset repository. Each query reads one
    asset table (the rows of one asset type) and the publications table; the
    model evaluates it over an in-memory snapshot of both. The sub-queries
    that the publication component supplies are parameters:
      latestOf   the latest-publication sub-select of a row, by asset id;
      statusPubs the rows of the by-status relation;
      isActive   the active-publication condition;
      hasStatus  the optional status condition. */
module Assets {
  import opened Results
  import opened Publications
  import Seqs

  /** One row of an asset table; attributes holds the columns a particular
      asset type adds (coordinates for parcels, for example). */
  datatype AssetRow<D> = AssetRow(id: string, tokenId: Option<string>, owner: string, attributes: D)

  /** An asset row with the JSON of its latest publication, if any. */
  datatype Decorated<D> = Decorated(asset: AssetRow<D>, publication: Option<Publication>)

  /** An asset row joined with one of its publications. */
  datatype Listed<D> = Listed(asset: AssetRow<D>, publication: Publication)

  /** id is the primary key of an asset table. */
  ghost predicate UniqueIds<D>(assets: seq<AssetRow<D>>) {
    forall i, j :: 0 <= i < j < |assets| ==> assets[i].id != assets[j].id
  }

  function Decorate<D>(rows: seq<AssetRow<D>>, latestOf: string -> Option<Publication>): (r: seq<Decorated<D>>)
    ensures |r| == |rows|
    ensures forall i :: 0 <= i < |r| ==> r[i].asset == rows[i] && r[i].publication == latestOf(rows[i].id)
  {
    seq(|rows|, i requires 0 <= i < |rows| => Decorated(rows[i], latestOf(rows[i].id)))
  }

  /** Decorating keeps the rows and pairs each with its latest publication. */
  lemma DecorateMembers<D>(rows: seq<AssetRow<D>>, latestOf: string -> Option<Publication>)
    ensures forall d :: d in Decorate(rows, latestOf) <==> d.asset in rows && d.publication == latestOf(d.asset.id)
    ensures AssetsOf(Decorate(rows, latestOf)) == rows
  {
    var r := Decorate(rows, latestOf);
    assert AssetsOf(r) == rows;
    forall d | d in r ensures d.asset in rows && d.publication == latestOf(d.asset.id) {
      var i :| 0 <= i < |r| && r[i] == d;
    }
    forall a | a in rows ensures Decorated(a, latestOf(a.id)) in r {
      var i :| 0 <= i < |rows| && rows[i] == a;
      assert r[i] == Decorated(a, latestOf(a.id));
    }
  }

  // ----- point lookups -----

  /** findById: the first row with the given id, decorated, or undefined. */
  function FindById<D(!new)>(assets: seq<AssetRow<D>>, latestOf: string -> Option<Publication>, id: string)
    : (r: Option<Decorated<D>>)
    ensures r.None? <==> forall a :: a in assets ==> a.id != id
    ensures r.Some? ==> r.value.asset in assets && r.value.asset.id == id && r.value.publication == latestOf(id)
  {
    match Seqs.FindFirst(assets, (a: AssetRow<D>) => a.id == id)
    case None => None
    case Some(a) => Some(Decorated(a, latestOf(a.id)))
  }

  /** findByTokenId: the first row with the given token id, decorated, or
      undefined. A row whose token_id is NULL never matches. */
  function FindByTokenId<D(!new)>(assets: seq<AssetRow<D>>, latestOf: string -> Option<Publication>, tokenId: string)
    : (r: Option<Decorated<D>>)
    ensures r.None? <==> forall a :: a in assets ==> a.tokenId != Some(tokenId)
    ensures r.Some? ==> r.value.asset in assets && r.value.asset.tokenId == Some(tokenId)
    ensures r.Some? ==> r.value.publication == latestOf(r.value.asset.id)
  {
    match Seqs.FindFirst(assets, (a: AssetRow<D>) => a.tokenId == Some(tokenId))
    case None => None
    case Some(a) => Some(Decorated(a, latestOf(a.id)))
  }

  // ----- bulk lookups -----

  /** findByIds: the rows whose id is one of ids (undecorated); an empty list
      of ids gives no rows without reading the table. */
  function FindByIds<D(!new)>(assets: seq<AssetRow<D>>, ids: seq<string>): (r: seq<AssetRow<D>>)
    ensures |ids| == 0 ==> r == []
    ensures forall a :: a in r <==> a in assets && a.id in ids
    ensures Seqs.IsSubsequence(r, assets)
    ensures forall a :: multiset(r)[a] == if a.id in ids then multiset(assets)[a] else 0
  {
    if |ids| == 0 then
      Seqs.EmptyIsSubsequence(assets);
      []
    else
      var wanted := (a: AssetRow<D>) => a.id in ids;
      Seqs.FilterIsSubsequence(assets, wanted);
      forall a ensures multiset(Seqs.Filter(assets, wanted))[a] == if a.id in ids then multiset(assets)[a] else 0 {
        Seqs.FilterMultiset(assets, wanted, a);
      }
      Seqs.Filter(assets, wanted)
  }

  /** findByTokenIds: the rows whose token id is one of tokenIds; an empty
      list gives no rows without reading the table. */
  function FindByTokenIds<D(!new)>(assets: seq<AssetRow<D>>, tokenIds: seq<string>): (r: seq<AssetRow<D>>)
    ensures |tokenIds| == 0 ==> r == []
    ensures forall a :: a in r <==> a in assets && a.tokenId.Some? && a.tokenId.value in tokenIds
    ensures Seqs.IsSubsequence(r, assets)
    ensures forall a :: multiset(r)[a] == if a.tokenId.Some? && a.tokenId.value in tokenIds then multiset(assets)[a] else 0
  {
    if |tokenIds| == 0 then
      Seqs.EmptyIsSubsequence(assets);
      []
    else
      var wanted := (a: AssetRow<D>) => a.tokenId.Some? && a.tokenId.value in tokenIds;
      Seqs.FilterIsSubsequence(assets, wanted);
      forall a ensures multiset(Seqs.Filter(assets, wanted))[a] == if wanted(a) then multiset(assets)[a] else 0 {
        Seqs.FilterMultiset(assets, wanted, a);
      }
      Seqs.Filter(assets, wanted)
  }

  /** The asset rows of decorated rows, in order. */
  function AssetsOf<D>(rows: seq<Decorated<D>>): (r: seq<AssetRow<D>>)
    ensures |r| == |rows|
    ensures forall i :: 0 <= i < |r| ==> r[i] == rows[i].asset
  {
    seq(|rows|, i requires 0 <= i < |rows| => rows[i].asset)
  }

  /** findByOwner: every row owned by owner, as often as the table holds it
      and in table order, each decorated with its latest publication. */
  function FindByOwner<D(!new)>(assets: seq<AssetRow<D>>, latestOf: string -> Option<Publication>, owner: string)
    : (r: seq<Decorated<D>>)
    ensures forall d :: d in r <==> d.asset in assets && d.asset.owner == owner && d.publication == latestOf(d.asset.id)
    ensures Seqs.IsSubsequence(AssetsOf(r), assets)
    ensures forall a: AssetRow<D> :: a.owner == owner ==> multiset(AssetsOf(r))[a] == multiset(assets)[a]
  {
    var owned := (a: AssetRow<D>) => a.owner == owner;
    var rows := Seqs.Filter(assets, owned);
    DecorateMembers(rows, latestOf);
    Seqs.FilterIsSubsequence(assets, owned);
    forall a: AssetRow<D> | a.owner == owner ensures multiset(rows)[a] == multiset(assets)[a] {
      Seqs.FilterMultiset(assets, owned, a);
    }
    Decorate(rows, latestOf)
  }

  // ----- joins -----

  /** The rows of assets that join to publication p on asset.id = pub.asset_id. */
  function JoinRow<D(!new)>(p: Publication, assets: seq<AssetRow<D>>): (r: seq<Listed<D>>)
    ensures forall l :: l in r <==> l.publication == p && l.asset in assets && l.asset.id == p.assetId
  {
    if assets == [] then []
    else
      assert assets == [assets[0]] + assets[1..];
      (if assets[0].id == p.assetId then [Listed(assets[0], p)] else []) + JoinRow(p, assets[1..])
  }

  /** The inner join of publications with asset rows on asset.id = pub.asset_id. */
  function JoinOn<D(!new)>(pubs: seq<Publication>, assets: seq<AssetRow<D>>): (r: seq<Listed<D>>)
    ensures forall l :: l in r <==> l.publication in pubs && l.asset in assets && l.asset.id == l.publication.assetId
  {
    if pubs == [] then []
    else
      assert pubs == [pubs[0]] + pubs[1..];
      JoinRow(pubs[0], assets) + JoinOn(pubs[1..], assets)
  }

  lemma {:induction false} JoinRowNone<D(!new)>(p: Publication, assets: seq<AssetRow<D>>)
    requires forall a :: a in assets ==> a.id != p.assetId
    ensures JoinRow(p, assets) == []
  {
    if assets != [] {
      JoinRowNone(p, assets[1..]);
    }
  }

  /** With id a primary key, a publication joins to at most one asset row. */
  lemma {:induction false} JoinRowAtMostOne<D(!new)>(p: Publication, assets: seq<AssetRow<D>>)
    requires UniqueIds(assets)
    ensures |JoinRow(p, assets)| <= 1
  {
    if assets != [] {
      var rest := assets[1..];
      assert UniqueIds(rest) by {
        forall i, j | 0 <= i < j < |rest| ensures rest[i].id != rest[j].id {
          assert rest[i] == assets[i + 1] && rest[j] == assets[j + 1];
        }
      }
      if assets[0].id == p.assetId {
        forall a | a in rest ensures a.id != p.assetId {
          var k :| 0 <= k < |rest| && rest[k] == a;
          assert assets[k + 1] == a;
        }
        JoinRowNone(p, rest);
      } else {
        JoinRowAtMostOne(p, rest);
      }
    }
  }

  /** With id a primary key, the join has at most one row per publication. */
  lemma {:induction false} JoinOnAtMostOnePerPublication<D(!new)>(pubs: seq<Publication>, assets: seq<AssetRow<D>>)
    requires UniqueIds(assets)
    ensures |JoinOn(pubs, assets)| <= |pubs|
  {
    if pubs != [] {
      JoinRowAtMostOne(pubs[0], assets);
      JoinOnAtMostOnePerPublication(pubs[1..], assets);
    }
  }

  // ----- by owner and status -----

  function StatusKey<D>(l: Listed<D>): (string, string) {
    (l.asset.id, l.publication.status)
  }

  predicate HasTxHash(p: Publication) {
    p.txHash.Some?
  }

  /** findByOwnerAndStatus: the owner's rows joined with the by-status
      relation, keeping only publications with a transaction hash (which
      turns the LEFT JOIN into an inner join), one row per (asset id,
      publication status). */
  function FindByOwnerAndStatus<D(!new)>(assets: seq<AssetRow<D>>, statusPubs: seq<Publication>, owner: string)
    : (r: seq<Listed<D>>)
    ensures forall l :: l in r ==>
      l.asset in assets && l.asset.owner == owner &&
      l.publication in statusPubs && l.publication.assetId == l.asset.id && l.publication.txHash.Some?
    ensures forall i, j :: 0 <= i < j < |r| ==> StatusKey(r[i]) != StatusKey(r[j])
  {
    Seqs.DistinctOn(OwnerStatusJoin(assets, statusPubs, owner), StatusKey, {})
  }

  function OwnerStatusJoin<D(!new)>(assets: seq<AssetRow<D>>, statusPubs: seq<Publication>, owner: string)
    : seq<Listed<D>>
  {
    JoinOn(Seqs.Filter(statusPubs, HasTxHash), Seqs.Filter(assets, (a: AssetRow<D>) => a.owner == owner))
  }

  /** No pairing is lost to DISTINCT ON: every owned asset with a hashed
      publication of the relation is represented by some row with its
      (asset id, status). */
  lemma FindByOwnerAndStatusComplete<D(!new)>(
    assets: seq<AssetRow<D>>, statusPubs: seq<Publication>, owner: string, a: AssetRow<D>, p: Publication)
    requires a in assets && a.owner == owner
    requires p in statusPubs && p.assetId == a.id && p.txHash.Some?
    ensures exists l :: l in FindByOwnerAndStatus(assets, statusPubs, owner) && StatusKey(l) == (a.id, p.status)
  {
    var joined := OwnerStatusJoin(assets, statusPubs, owner);
    assert Listed(a, p) in joined;
    Seqs.DistinctOnComplete(joined, StatusKey, {}, Listed(a, p));
    var r := FindByOwnerAndStatus(assets, statusPubs, owner);
    var i :| 0 <= i < |r| && StatusKey(r[i]) == StatusKey(Listed(a, p));
    assert r[i] in r;
  }

  /** When the relation holds only rows of one status, so does the result. */
  lemma FindByOwnerAndStatusHasStatus<D(!new)>(
    assets: seq<AssetRow<D>>, statusPubs: seq<Publication>, owner: string, status: string)
    requires forall p :: p in statusPubs ==> p.status == status
    ensures forall l :: l in FindByOwnerAndStatus(assets, statusPubs, owner) ==> l.publication.status == status
  {
  }

  // ----- the paginated listing and its count -----

  datatype SortOrder = Asc | Desc

  /** The sanitized filter: the optional status, the asset type, the sort
      column (as the value it reads from a publication) and direction, and
      the page bounds. */
  datatype Filters = Filters(
    status: Option<string>,
    assetType: string,
    sortBy: Publication -> int,
    order: SortOrder,
    limit: nat,
    offset: nat)

  datatype Page<D> = Page(assets: seq<Listed<D>>, total: nat)

  /** The WHERE clause of the page query. */
  predicate PageCondition(
    f: Filters, isActive: Publication -> bool, hasStatus: (Option<string>, Publication) -> bool, p: Publication)
  {
    p.txStatus == Confirmed && p.assetType == f.assetType && isActive(p) && hasStatus(f.status, p)
  }

  function PageWhere(f: Filters, isActive: Publication -> bool, hasStatus: (Option<string>, Publication) -> bool)
    : Publication -> bool
  {
    p => PageCondition(f, isActive, hasStatus, p)
  }

  /** The WHERE clause of the count query as written: `status = $status`,
      which SQL never satisfies when the status is NULL. */
  predicate CountCondition(f: Filters, isActive: Publication -> bool, p: Publication) {
    f.status.Some? && p.status == f.status.value &&
    p.txStatus == Confirmed && p.assetType == f.assetType && isActive(p)
  }

  function CountWhere(f: Filters, isActive: Publication -> bool): Publication -> bool {
    p => CountCondition(f, isActive, p)
  }

  /** ORDER BY pub.<sort.by> <sort.order>. */
  function PageOrder<D>(f: Filters): (Listed<D>, Listed<D>) -> bool {
    (a: Listed<D>, b: Listed<D>) =>
      if f.order == Asc then f.sortBy(a.publication) <= f.sortBy(b.publication)
      else f.sortBy(a.publication) >= f.sortBy(b.publication)
  }

  lemma PageOrderIsTotalPreorder<D(!new)>(f: Filters)
    ensures Seqs.TotalPreorder(PageOrder<D>(f))
  {
  }

  /** The joined rows the page query selects, before ORDER BY and LIMIT/OFFSET. */
  function Matching<D(!new)>(
    assets: seq<AssetRow<D>>, pubs: seq<Publication>,
    f: Filters, isActive: Publication -> bool, hasStatus: (Option<string>, Publication) -> bool)
    : seq<Listed<D>>
  {
    JoinOn(Seqs.Filter(pubs, PageWhere(f, isActive, hasStatus)), assets)
  }

  /** The page query's rows in ORDER BY order, before LIMIT/OFFSET. */
  function Ordered<D(!new)>(
    assets: seq<AssetRow<D>>, pubs: seq<Publication>,
    f: Filters, isActive: Publication -> bool, hasStatus: (Option<string>, Publication) -> bool)
    : (r: seq<Listed<D>>)
    ensures multiset(r) == multiset(Matching(assets, pubs, f, isActive, hasStatus))
    ensures Seqs.SortedBy(r, PageOrder(f))
  {
    PageOrderIsTotalPreorder<D>(f);
    Seqs.SortByCorrect(Matching(assets, pubs, f, isActive, hasStatus), PageOrder(f));
    Seqs.SortBy(Matching(assets, pubs, f, isActive, hasStatus), PageOrder(f))
  }

  /** countAssetPublications as written: publications with exactly the
      requested status, a confirmed transaction, the asset type and the active
      condition; no join with the asset table and no pagination. */
  function CountAssetPublications(pubs: seq<Publication>, f: Filters, isActive: Publication -> bool): (n: nat)
    ensures n <= |pubs|
    ensures f.status.None? ==> n == 0
  {
    var r := Seqs.Filter(pubs, CountWhere(f, isActive));
    assert f.status.None? ==> r == [] by {
      if f.status.None? {
        Seqs.FilterNone(pubs, CountWhere(f, isActive));
      }
    }
    |r|
  }

  /** filter: rows offset .. offset + limit - 1 of the confirmed, active
      publications of the asset type (and status condition) joined to their
      asset rows in sort order, together with the count query's total. */
  function Filter<D(!new)>(
    assets: seq<AssetRow<D>>, pubs: seq<Publication>,
    f: Filters, isActive: Publication -> bool, hasStatus: (Option<string>, Publication) -> bool)
    : (r: Page<D>)
    ensures |r.assets| <= f.limit
    ensures var n := |Matching(assets, pubs, f, isActive, hasStatus)|;
      |r.assets| == if f.offset >= n then 0 else if f.limit <= n - f.offset then f.limit else n - f.offset
    ensures forall i :: 0 <= i < |r.assets| ==>
      f.offset + i < |Ordered(assets, pubs, f, isActive, hasStatus)| &&
      r.assets[i] == Ordered(assets, pubs, f, isActive, hasStatus)[f.offset + i]
    ensures forall l :: l in r.assets ==>
      l.asset in assets && l.asset.id == l.publication.assetId && l.publication in pubs &&
      l.publication.txStatus == Confirmed && l.publication.assetType == f.assetType &&
      isActive(l.publication) && hasStatus(f.status, l.publication)
    ensures Seqs.SortedBy(r.assets, PageOrder(f))
    ensures r.total == CountAssetPublications(pubs, f, isActive)
  {
    var ordered := Ordered(assets, pubs, f, isActive, hasStatus);
    var page := Seqs.Window(ordered, f.offset, f.limit);
    Seqs.WindowOfPermutation(ordered, Matching(assets, pubs, f, isActive, hasStatus), f.offset, f.limit);
    Seqs.WindowKeepsSorted(ordered, f.offset, f.limit, PageOrder(f));
    Page(page, CountAssetPublications(pubs, f, isActive))
  }

  /** A first page that is large enough holds every matching row. */
  lemma FilterFirstPageIsComplete<D(!new)>(
    assets: seq<AssetRow<D>>, pubs: seq<Publication>,
    f: Filters, isActive: Publication -> bool, hasStatus: (Option<string>, Publication) -> bool)
    requires f.offset == 0 && |Matching(assets, pubs, f, isActive, hasStatus)| <= f.limit
    ensures multiset(Filter(assets, pubs, f, isActive, hasStatus).assets)
         == multiset(Matching(assets, pubs, f, isActive, hasStatus))
  {
    var ordered := Ordered(assets, pubs, f, isActive, hasStatus);
    assert |ordered| == |Matching(assets, pubs, f, isActive, hasStatus)| by {
      assert |multiset(ordered)| == |multiset(Matching(assets, pubs, f, isActive, hasStatus))|;
    }
    if |ordered| > 0 {
      assert Seqs.Window(ordered, 0, f.limit) == ordered;
    }
  }

  /** For a given status whose condition implies `status = s`, and with id a
      primary key, the count query's total bounds the page size. */
  lemma StatusTotalBoundsPage<D(!new)>(
    assets: seq<AssetRow<D>>, pubs: seq<Publication>,
    f: Filters, isActive: Publication -> bool, hasStatus: (Option<string>, Publication) -> bool)
    requires f.status.Some?
    requires forall p :: hasStatus(f.status, p) ==> p.status == f.status.value
    requires UniqueIds(assets)
    ensures |Filter(assets, pubs, f, isActive, hasStatus).assets| <= Filter(assets, pubs, f, isActive, hasStatus).total
  {
    var selected := Seqs.Filter(pubs, PageWhere(f, isActive, hasStatus));
    JoinOnAtMostOnePerPublication(selected, assets);
    Seqs.FilterLengthMonotone(pubs, PageWhere(f, isActive, hasStatus), CountWhere(f, isActive));
    var ordered := Ordered(assets, pubs, f, isActive, hasStatus);
    assert |ordered| == |Matching(assets, pubs, f, isActive, hasStatus)| by {
      assert |multiset(ordered)| == |multiset(Matching(assets, pubs, f, isActive, hasStatus))|;
    }
  }

  /** With no status the page passes every status through while the count
      query's `status = NULL` counts nothing: a one-row page with total 0. */
  lemma NullStatusTotalBelowPage()
    ensures
      var a := AssetRow("0,0", None, "0x01", ());
      var p := Publication("0,0", "parcel", "open", Some("0xab"), Confirmed, 1, true);
      var f := Filters(None, "parcel", (q: Publication) => 0, Asc, 10, 0);
      var page := Filter([a], [p], f, (q: Publication) => true, PassThroughStatus);
      |page.assets| == 1 && page.total == 0
  {
    var a := AssetRow("0,0", None, "0x01", ());
    var p := Publication("0,0", "parcel", "open", Some("0xab"), Confirmed, 1, true);
    var f := Filters(None, "parcel", (q: Publication) => 0, Asc, 10, 0);
    var isActive := (q: Publication) => true;
    assert Seqs.Filter([p], PageWhere(f, isActive, PassThroughStatus)) == [p];
    assert JoinRow(p, [a]) == [Listed(a, p)];
    assert JoinOn([p], [a]) == JoinRow(p, [a]) + JoinOn([], [a]);
    assert Matching([a], [p], f, isActive, PassThroughStatus) == [Listed(a, p)];
    var ordered := Ordered([a], [p], f, isActive, PassThroughStatus);
    assert |ordered| == 1 by {
      assert |multiset(ordered)| == |multiset([Listed(a, p)])|;
    }
  }

  /** The count that matches the page query: the joined rows of the same
      WHERE clause, before pagination. */
  function CountPageMatches<D(!new)>(
    assets: seq<AssetRow<D>>, pubs: seq<Publication>,
    f: Filters, isActive: Publication -> bool, hasStatus: (Option<string>, Publication) -> bool)
    : (n: nat)
    ensures n == |Ordered(assets, pubs, f, isActive, hasStatus)|
  {
    var ordered := Ordered(assets, pubs, f, isActive, hasStatus);
    assert |ordered| == |Matching(assets, pubs, f, isActive, hasStatus)| by {
      assert |multiset(ordered)| == |multiset(Matching(assets, pubs, f, isActive, hasStatus))|;
    }
    |Matching(assets, pubs, f, isActive, hasStatus)|
  }

  /** filter with a total computed from the page query's own predicate: the
      same page, a total that is the number of rows that predicate selects,
      and a page size that follows from that total. */
  function FilterConsistent<D(!new)>(
    assets: seq<AssetRow<D>>, pubs: seq<Publication>,
    f: Filters, isActive: Publication -> bool, hasStatus: (Option<string>, Publication) -> bool)
    : (r: Page<D>)
    ensures r.assets == Filter(assets, pubs, f, isActive, hasStatus).assets
    ensures r.total == |Matching(assets, pubs, f, isActive, hasStatus)|
    ensures |r.assets| <= r.total
    ensures f.offset >= r.total ==> r.assets == []
    ensures f.offset < r.total ==> |r.assets| == if f.limit <= r.total - f.offset then f.limit else r.total - f.offset
  {
    Page(Filter(assets, pubs, f, isActive, hasStatus).assets, CountPageMatches(assets, pubs, f, isActive, hasStatus))
  }
}
