/** src/Asset/Parcel/Parcel.model.js: parcel identity, geometry, the range
    query, the district partition, the token id lookups and insertion. The
    table queries run over in-memory snapshots of the parcels and
    publications tables; the library helpers the model calls are parameters:
      toArray    coordinates.toArray, parsing an "x,y" coordinate text;
      isExpired  the expiry check of a publication's expires_at (it reads the clock). */
module Parcels {
  import opened Results
  import opened Publications
  import Seqs
  import Text
  import Assets

  /** The columns a parcel row adds to an asset row. */
  datatype ParcelAttributes = ParcelAttributes(x: int, y: int, districtId: Option<string>)

  type ParcelRow = Assets.AssetRow<ParcelAttributes>

  /** A parcel row of the range query with its latest publication, if any. */
  type RangeRow = Assets.Decorated<ParcelAttributes>

  datatype Error =
    | MissingCoordinates(x: Option<int>, y: Option<int>)
    | InvalidId(id: string)
    | DuplicateId(id: string)

  // ----- identity -----

  /** The id text of a coordinate pair: both coordinates in decimal, joined by a comma. */
  function CanonicalId(x: int, y: int): string {
    Text.IntToDecimal(x) + "," + Text.IntToDecimal(y)
  }

  /** buildId: fails when either coordinate is null or undefined, and
      otherwise returns "x,y". */
  function BuildId(x: Option<int>, y: Option<int>): (r: Result<string, Error>)
    ensures r.Failure? <==> x.None? || y.None?
    ensures r.Failure? ==> r.error == MissingCoordinates(x, y)
    ensures r.Success? ==> r.value == CanonicalId(x.value, y.value)
  {
    if x.None? || y.None? then Failure(MissingCoordinates(x, y))
    else Success(CanonicalId(x.value, y.value))
  }

  /** The text splitId works on: its argument, or '' when it is undefined. */
  function IdText(id: Option<string>): string {
    if id.Some? then id.value else ""
  }

  /** splitId: the two pieces around the comma of the id; fails unless
      splitting on "," gives exactly two pieces. */
  function SplitId(id: Option<string>): (r: Result<seq<string>, Error>)
    ensures r.Success? <==> Text.Occurrences(IdText(id), ',') == 1
    ensures r.Failure? ==> r.error == InvalidId(IdText(id))
    ensures r.Success? ==> |r.value| == 2 && r.value[0] + "," + r.value[1] == IdText(id)
    ensures r.Success? ==> ',' !in r.value[0] && ',' !in r.value[1]
  {
    var text := IdText(id);
    var parts := Text.Split(text, ',');
    Text.SplitCount(text, ',');
    Text.SplitJoin(text, ',');
    if |parts| != 2 then Failure(InvalidId(text))
    else
      assert Text.JoinWith(parts, ',') == parts[0] + [','] + Text.JoinWith(parts[1..], ',');
      Success(parts)
  }

  lemma DecimalHasNoComma(i: int)
    ensures ',' !in Text.IntToDecimal(i)
  {
  }

  /** splitId undoes buildId: the pieces are the decimal texts of x and y. */
  lemma SplitIdBuildIdRoundTrip(x: int, y: int)
    ensures BuildId(Some(x), Some(y)).Success?
    ensures SplitId(Some(BuildId(Some(x), Some(y)).value)) == Success([Text.IntToDecimal(x), Text.IntToDecimal(y)])
  {
    DecimalHasNoComma(x);
    DecimalHasNoComma(y);
    Text.SplitTwo(Text.IntToDecimal(x), Text.IntToDecimal(y), ',');
  }

  /** The id text determines the coordinates. */
  lemma CanonicalIdInjective(x1: int, y1: int, x2: int, y2: int)
    requires CanonicalId(x1, y1) == CanonicalId(x2, y2)
    ensures x1 == x2 && y1 == y2
  {
    DecimalHasNoComma(x1);
    DecimalHasNoComma(y1);
    DecimalHasNoComma(x2);
    DecimalHasNoComma(y2);
    Text.SplitTwo(Text.IntToDecimal(x1), Text.IntToDecimal(y1), ',');
    Text.SplitTwo(Text.IntToDecimal(x2), Text.IntToDecimal(y2), ',');
    Text.IntToDecimalInjective(x1, x2);
    Text.IntToDecimalInjective(y1, y2);
  }

  /** The default '', a text without a comma and one with two commas are all refused. */
  lemma SplitIdRejects()
    ensures SplitId(None).Failure?
    ensures SplitId(Some("5")).Failure?
    ensures SplitId(Some("1,2,3")).Failure?
  {
  }

  /** The row's id is the one insert stamps on it. */
  predicate Stamped(p: ParcelRow) {
    p.id == CanonicalId(p.attributes.x, p.attributes.y)
  }

  ghost predicate AllStamped(rows: seq<ParcelRow>) {
    forall p :: p in rows ==> Stamped(p)
  }

  // ----- geometry -----

  function Abs(n: int): nat {
    if n < 0 then -n else n
  }

  /** distanceTo: the Chebyshev distance, the larger of the two axis distances. */
  function DistanceTo(p: ParcelRow, q: ParcelRow): (d: nat)
    ensures d >= Abs(p.attributes.x - q.attributes.x) && d >= Abs(p.attributes.y - q.attributes.y)
    ensures d == Abs(p.attributes.x - q.attributes.x) || d == Abs(p.attributes.y - q.attributes.y)
  {
    var dx := Abs(p.attributes.x - q.attributes.x);
    var dy := Abs(p.attributes.y - q.attributes.y);
    if dx >= dy then dx else dy
  }

  /** isWithinBoundingBox: both axis distances are at most size. */
  function IsWithinBoundingBox(p: ParcelRow, q: ParcelRow, size: int): (b: bool)
    ensures b <==> DistanceTo(p, q) <= size
  {
    Abs(p.attributes.x - q.attributes.x) <= size && Abs(p.attributes.y - q.attributes.y) <= size
  }

  lemma DistanceToSymmetric(p: ParcelRow, q: ParcelRow)
    ensures DistanceTo(p, q) == DistanceTo(q, p)
  {
  }

  /** Distance zero exactly at the same coordinates; in particular against itself. */
  lemma DistanceToZero(p: ParcelRow, q: ParcelRow)
    ensures DistanceTo(p, p) == 0
    ensures DistanceTo(p, q) == 0 <==> p.attributes.x == q.attributes.x && p.attributes.y == q.attributes.y
  {
  }

  lemma DistanceToTriangle(p: ParcelRow, q: ParcelRow, r: ParcelRow)
    ensures DistanceTo(p, r) <= DistanceTo(p, q) + DistanceTo(q, r)
  {
  }

  /** isEqual: the same id, or the same coordinates, which is distance zero. */
  function IsEqual(p: ParcelRow, q: ParcelRow): (b: bool)
    ensures b <==> p.id == q.id || DistanceTo(p, q) == 0
  {
    p.id == q.id || (p.attributes.x == q.attributes.x && p.attributes.y == q.attributes.y)
  }

  lemma IsEqualReflexiveSymmetric(p: ParcelRow, q: ParcelRow)
    ensures IsEqual(p, p)
    ensures IsEqual(p, q) <==> IsEqual(q, p)
  {
  }

  /** Without stamped ids isEqual is not transitive: a shares b's id, b
      shares c's coordinates, yet a and c differ in both. */
  lemma IsEqualNotTransitive()
    ensures
      var a := Assets.AssetRow("1,1", None, "", ParcelAttributes(1, 1, None));
      var b := Assets.AssetRow("1,1", None, "", ParcelAttributes(2, 2, None));
      var c := Assets.AssetRow("2,2", None, "", ParcelAttributes(2, 2, None));
      IsEqual(a, b) && IsEqual(b, c) && !IsEqual(a, c)
  {
  }

  /** Between rows whose ids insert stamped, isEqual is coordinate equality. */
  lemma StampedIsEqualIffSameCoordinates(p: ParcelRow, q: ParcelRow)
    requires Stamped(p) && Stamped(q)
    ensures IsEqual(p, q) <==> p.attributes.x == q.attributes.x && p.attributes.y == q.attributes.y
  {
    if p.id == q.id {
      CanonicalIdInjective(p.attributes.x, p.attributes.y, q.attributes.x, q.attributes.y);
    }
  }

  // ----- the range query -----

  /** A corner of the range: an "x,y" text or an object with x and y. */
  datatype Coordinate = CoordinateText(text: string) | CoordinatePoint(x: int, y: int)

  function Components(c: Coordinate, toArray: string -> (int, int)): (int, int) {
    match c
    case CoordinateText(t) => toArray(t)
    case CoordinatePoint(x, y) => (x, y)
  }

  datatype Bounds = Bounds(minX: int, maxX: int, minY: int, maxY: int)

  /** The BETWEEN bounds: min supplies minx and maxy, max supplies maxx and
      miny (min is the north-west corner). */
  function RangeBounds(min: Coordinate, max: Coordinate, toArray: string -> (int, int)): (b: Bounds)
    ensures b.minX == Components(min, toArray).0 && b.maxY == Components(min, toArray).1
    ensures b.maxX == Components(max, toArray).0 && b.minY == Components(max, toArray).1
  {
    var (minX, maxY) := Components(min, toArray);
    var (maxX, minY) := Components(max, toArray);
    Bounds(minX, maxX, minY, maxY)
  }

  /** x BETWEEN minx AND maxx AND y BETWEEN miny AND maxy. */
  predicate InBox(p: ParcelRow, b: Bounds) {
    b.minX <= p.attributes.x <= b.maxX && b.minY <= p.attributes.y <= b.maxY
  }

  function InBoxOf(b: Bounds): ParcelRow -> bool {
    p => InBox(p, b)
  }

  /** ORDER BY x ASC, y DESC. */
  predicate ScanOrder(a: RangeRow, b: RangeRow) {
    a.asset.attributes.x < b.asset.attributes.x ||
    (a.asset.attributes.x == b.asset.attributes.x && a.asset.attributes.y >= b.asset.attributes.y)
  }

  lemma ScanOrderIsTotalPreorder()
    ensures Seqs.TotalPreorder(ScanOrder)
  {
  }

  /** The join condition p.id = pub.asset_id AND pub.is_latest = true. */
  predicate IsLatestOf(id: string, pub: Publication) {
    pub.assetId == id && pub.isLatest
  }

  function LatestOf(id: string): Publication -> bool {
    pub => IsLatestOf(id, pub)
  }

  /** What the LEFT JOIN pairs a row with: a latest publication of its
      parcel, or nothing when the parcel has none. */
  ghost predicate JoinsLatest(d: RangeRow, pubs: seq<Publication>) {
    match d.publication
    case None => forall pub :: pub in pubs ==> !IsLatestOf(d.asset.id, pub)
    case Some(pub) => pub in pubs && IsLatestOf(d.asset.id, pub)
  }

  /** The LEFT JOIN rows of one parcel. */
  function LeftJoinRow(parcel: ParcelRow, pubs: seq<Publication>): (r: seq<RangeRow>)
    ensures |r| == if |Seqs.Filter(pubs, LatestOf(parcel.id))| == 0 then 1 else |Seqs.Filter(pubs, LatestOf(parcel.id))|
    ensures forall d :: d in r <==> d.asset == parcel && JoinsLatest(d, pubs)
  {
    var matches := Seqs.Filter(pubs, LatestOf(parcel.id));
    assert forall pub :: pub in matches <==> pub in pubs && IsLatestOf(parcel.id, pub);
    if matches == [] then
      [Assets.Decorated(parcel, None)]
    else
      var r := seq(|matches|, i requires 0 <= i < |matches| => Assets.Decorated(parcel, Some(matches[i])));
      assert matches[0] in pubs && IsLatestOf(parcel.id, matches[0]);
      assert forall d :: d in r ==> d.asset == parcel && d.publication.Some? && d.publication.value in matches;
      assert forall pub :: pub in matches ==> Assets.Decorated(parcel, Some(pub)) in r by {
        forall pub | pub in matches ensures Assets.Decorated(parcel, Some(pub)) in r {
          var i :| 0 <= i < |matches| && matches[i] == pub;
          assert r[i] == Assets.Decorated(parcel, Some(pub));
        }
      }
      r
  }

  /** parcels LEFT JOIN publications ON p.id = pub.asset_id AND pub.is_latest. */
  function LeftJoin(parcels: seq<ParcelRow>, pubs: seq<Publication>): (r: seq<RangeRow>)
    ensures forall d :: d in r <==> d.asset in parcels && JoinsLatest(d, pubs)
  {
    if parcels == [] then []
    else
      assert parcels == [parcels[0]] + parcels[1..];
      LeftJoinRow(parcels[0], pubs) + LeftJoin(parcels[1..], pubs)
  }

  /** The database stage of inRange: the parcels inside the bounds, joined
      with their latest publication, in scan order. */
  function RangeRows(parcels: seq<ParcelRow>, pubs: seq<Publication>, b: Bounds): (r: seq<RangeRow>)
    ensures multiset(r) == multiset(LeftJoin(Seqs.Filter(parcels, InBoxOf(b)), pubs))
    ensures Seqs.SortedBy(r, ScanOrder)
  {
    var joined := LeftJoin(Seqs.Filter(parcels, InBoxOf(b)), pubs);
    ScanOrderIsTotalPreorder();
    Seqs.SortByCorrect(joined, ScanOrder);
    Seqs.SortBy(joined, ScanOrder)
  }

  /** A row is in the database stage exactly when its parcel is in the table
      and inside the bounds and it carries the left-join decoration. */
  lemma RangeRowsMembers(parcels: seq<ParcelRow>, pubs: seq<Publication>, b: Bounds)
    ensures forall d :: d in RangeRows(parcels, pubs, b) <==>
      d.asset in parcels && InBox(d.asset, b) && JoinsLatest(d, pubs)
  {
    var joined := LeftJoin(Seqs.Filter(parcels, InBoxOf(b)), pubs);
    assert forall d :: d in RangeRows(parcels, pubs, b) <==> d in multiset(joined);
  }

  /** The application stage's test: no publication, or one that has not expired. */
  predicate Unexpired(isExpired: int -> bool, d: RangeRow) {
    d.publication.None? || !isExpired(d.publication.value.expiresAt)
  }

  function UnexpiredOf(isExpired: int -> bool): RangeRow -> bool {
    d => Unexpired(isExpired, d)
  }

  /** inRange: the parcels with min.x <= x <= max.x and max.y <= y <= min.y,
      each with its latest publication, in scan order, without those whose
      publication has expired. */
  function InRange(
    parcels: seq<ParcelRow>, pubs: seq<Publication>, min: Coordinate, max: Coordinate,
    toArray: string -> (int, int), isExpired: int -> bool)
    : (r: seq<RangeRow>)
    ensures forall d :: d in r ==>
      Components(min, toArray).0 <= d.asset.attributes.x <= Components(max, toArray).0 &&
      Components(max, toArray).1 <= d.asset.attributes.y <= Components(min, toArray).1
    ensures forall d :: d in r <==>
      d.asset in parcels && InBox(d.asset, RangeBounds(min, max, toArray)) &&
      JoinsLatest(d, pubs) && Unexpired(isExpired, d)
    ensures Seqs.SortedBy(r, ScanOrder)
    ensures Seqs.IsSubsequence(r, RangeRows(parcels, pubs, RangeBounds(min, max, toArray)))
  {
    var b := RangeBounds(min, max, toArray);
    var stage1 := RangeRows(parcels, pubs, b);
    RangeRowsMembers(parcels, pubs, b);
    Seqs.FilterKeepsSorted(stage1, UnexpiredOf(isExpired), ScanOrder);
    Seqs.FilterIsSubsequence(stage1, UnexpiredOf(isExpired));
    Seqs.Filter(stage1, UnexpiredOf(isExpired))
  }

  /** The expiry stage keeps every copy of an unexpired row of the database
      stage and no copy of an expired one. */
  lemma InRangeOccurrences(
    parcels: seq<ParcelRow>, pubs: seq<Publication>, min: Coordinate, max: Coordinate,
    toArray: string -> (int, int), isExpired: int -> bool, d: RangeRow)
    ensures multiset(InRange(parcels, pubs, min, max, toArray, isExpired))[d] ==
      if Unexpired(isExpired, d) then multiset(RangeRows(parcels, pubs, RangeBounds(min, max, toArray)))[d] else 0
  {
    Seqs.FilterMultiset(RangeRows(parcels, pubs, RangeBounds(min, max, toArray)), UnexpiredOf(isExpired), d);
  }

  /** The expiry stage only removes rows: a row of the database stage stays
      exactly when it has no publication or one that has not expired. */
  lemma InRangeDropsOnlyExpired(
    parcels: seq<ParcelRow>, pubs: seq<Publication>, min: Coordinate, max: Coordinate,
    toArray: string -> (int, int), isExpired: int -> bool, d: RangeRow)
    requires d in RangeRows(parcels, pubs, RangeBounds(min, max, toArray))
    ensures d in InRange(parcels, pubs, min, max, toArray, isExpired) <==>
      d.publication.None? || !isExpired(d.publication.value.expiresAt)
  {
  }

  /** A lower bound above its upper bound selects nothing. */
  lemma InRangeEmptyWhenInverted(
    parcels: seq<ParcelRow>, pubs: seq<Publication>, min: Coordinate, max: Coordinate,
    toArray: string -> (int, int), isExpired: int -> bool)
    requires var b := RangeBounds(min, max, toArray); b.minX > b.maxX || b.minY > b.maxY
    ensures InRange(parcels, pubs, min, max, toArray, isExpired) == []
  {
  }

  /** A text corner and the object corner it parses to give the same result. */
  lemma InRangeTextAndPointAgree(
    parcels: seq<ParcelRow>, pubs: seq<Publication>, text: string, x: int, y: int, other: Coordinate,
    toArray: string -> (int, int), isExpired: int -> bool)
    requires toArray(text) == (x, y)
    ensures InRange(parcels, pubs, CoordinateText(text), other, toArray, isExpired)
         == InRange(parcels, pubs, CoordinatePoint(x, y), other, toArray, isExpired)
    ensures InRange(parcels, pubs, other, CoordinateText(text), toArray, isExpired)
         == InRange(parcels, pubs, other, CoordinatePoint(x, y), toArray, isExpired)
  {
  }

  /** Under the single-latest-pointer invariant a parcel has at most one
      latest publication. */
  lemma {:induction false} AtMostOneLatest(pubs: seq<Publication>, id: string)
    requires LatestPointerInvariant(pubs)
    ensures |Seqs.Filter(pubs, LatestOf(id))| <= 1
  {
    if pubs != [] {
      var rest := pubs[1..];
      assert LatestPointerInvariant(rest) by {
        forall i, j | 0 <= i < j < |rest| && rest[i].isLatest && rest[j].isLatest
          ensures rest[i].assetId != rest[j].assetId
        {
          assert rest[i] == pubs[i + 1] && rest[j] == pubs[j + 1];
        }
      }
      if IsLatestOf(id, pubs[0]) {
        forall i | 0 <= i < |rest| ensures !LatestOf(id)(rest[i]) {
          assert rest[i] == pubs[i + 1];
        }
        Seqs.FilterNone(rest, LatestOf(id));
      } else {
        AtMostOneLatest(rest, id);
      }
    }
  }

  lemma {:induction false} LeftJoinOneRowPerParcel(parcels: seq<ParcelRow>, pubs: seq<Publication>)
    requires LatestPointerInvariant(pubs)
    ensures |LeftJoin(parcels, pubs)| == |parcels|
  {
    if parcels != [] {
      AtMostOneLatest(pubs, parcels[0].id);
      LeftJoinOneRowPerParcel(parcels[1..], pubs);
    }
  }

  /** Under the single-latest-pointer invariant the join does not fan out:
      the database stage has one row per parcel inside the bounds. */
  lemma RangeRowsOneRowPerParcel(parcels: seq<ParcelRow>, pubs: seq<Publication>, b: Bounds)
    requires LatestPointerInvariant(pubs)
    ensures |RangeRows(parcels, pubs, b)| == |Seqs.Filter(parcels, InBoxOf(b))|
  {
    var r := RangeRows(parcels, pubs, b);
    var joined := LeftJoin(Seqs.Filter(parcels, InBoxOf(b)), pubs);
    LeftJoinOneRowPerParcel(Seqs.Filter(parcels, InBoxOf(b)), pubs);
    assert |multiset(r)| == |multiset(joined)|;
  }

  // ----- district partition -----

  /** findOwneableParcels: the parcels outside any district. */
  function FindOwneableParcels(parcels: seq<ParcelRow>): (r: seq<ParcelRow>)
    ensures forall p :: p in r <==> p in parcels && p.attributes.districtId.None?
  {
    Seqs.Filter(parcels, (p: ParcelRow) => p.attributes.districtId.None?)
  }

  /** findLandmarks: the parcels that belong to a district. */
  function FindLandmarks(parcels: seq<ParcelRow>): (r: seq<ParcelRow>)
    ensures forall p :: p in r <==> p in parcels && p.attributes.districtId.Some?
  {
    Seqs.Filter(parcels, (p: ParcelRow) => p.attributes.districtId.Some?)
  }

  /** Every parcel row is in exactly one of the two, as often as the table holds it. */
  lemma OwneableAndLandmarksPartition(parcels: seq<ParcelRow>)
    ensures multiset(FindOwneableParcels(parcels)) + multiset(FindLandmarks(parcels)) == multiset(parcels)
    ensures forall p :: !(p in FindOwneableParcels(parcels) && p in FindLandmarks(parcels))
  {
    Seqs.FilterSplit(parcels,
      (p: ParcelRow) => p.attributes.districtId.None?,
      (p: ParcelRow) => p.attributes.districtId.Some?);
  }

  // ----- token id lookups -----

  predicate At(p: ParcelRow, x: int, y: int) {
    p.attributes.x == x && p.attributes.y == y
  }

  /** encodeTokenId: the token id of the first parcel at (x, y); null when no
      parcel is there (or its token id is null). */
  function EncodeTokenId(parcels: seq<ParcelRow>, x: int, y: int): (r: Option<string>)
    ensures (forall p :: p in parcels ==> !At(p, x, y)) ==> r.None?
    ensures (exists p :: p in parcels && At(p, x, y)) ==> exists p :: p in parcels && At(p, x, y) && p.tokenId == r
  {
    match Seqs.FindFirst(parcels, (p: ParcelRow) => At(p, x, y))
    case None => None
    case Some(p) => p.tokenId
  }

  /** decodeTokenId: the id of the first parcel with the token id; null when
      there is none. */
  function DecodeTokenId(parcels: seq<ParcelRow>, tokenId: string): (r: Option<string>)
    ensures r.None? <==> forall p :: p in parcels ==> p.tokenId != Some(tokenId)
    ensures r.Some? ==> exists p :: p in parcels && p.tokenId == Some(tokenId) && p.id == r.value
  {
    match Seqs.FindFirst(parcels, (p: ParcelRow) => p.tokenId == Some(tokenId))
    case None => None
    case Some(p) => Some(p.id)
  }

  /** token_id is unique among the rows that have one. */
  ghost predicate UniqueTokenIds(parcels: seq<ParcelRow>) {
    forall p, q :: p in parcels && q in parcels && p.tokenId.Some? && p.tokenId == q.tokenId ==> p == q
  }

  /** With stamped ids and unique token ids, decoding the token id found at
      (x, y) gives back the id of (x, y). */
  lemma TokenIdRoundTrip(parcels: seq<ParcelRow>, x: int, y: int, tokenId: string)
    requires AllStamped(parcels) && UniqueTokenIds(parcels)
    requires EncodeTokenId(parcels, x, y) == Some(tokenId)
    ensures DecodeTokenId(parcels, tokenId) == Some(CanonicalId(x, y))
  {
  }

  /** On a table whose schema invariant holds, looking up the token id found
      at (x, y) gives back the id of (x, y). */
  lemma ValidTableTokenIdRoundTrip(t: ParcelTable, x: int, y: int, tokenId: string)
    requires t.Valid() && UniqueTokenIds(t.rows)
    requires EncodeTokenId(t.rows, x, y) == Some(tokenId)
    ensures DecodeTokenId(t.rows, tokenId) == Some(CanonicalId(x, y))
  {
    TokenIdRoundTrip(t.rows, x, y, tokenId);
  }

  // ----- insertion -----

  /** The plain object handed to insert; insert overwrites its id. */
  class ParcelDraft {
    var id: Option<string>
    var x: Option<int>
    var y: Option<int>
    var tokenId: Option<string>
    var owner: string
    var districtId: Option<string>

    constructor (id: Option<string>, x: Option<int>, y: Option<int>,
                 tokenId: Option<string>, owner: string, districtId: Option<string>)
      ensures this.id == id && this.x == x && this.y == y
      ensures this.tokenId == tokenId && this.owner == owner && this.districtId == districtId
    {
      this.id := id;
      this.x := x;
      this.y := y;
      this.tokenId := tokenId;
      this.owner := owner;
      this.districtId := districtId;
    }
  }

  /** The parcels table as insert changes it. */
  class ParcelTable {
    var rows: seq<ParcelRow>

    /** The table's schema invariant: every row carries the id insert
        stamps, and id is the primary key. Insert keeps it, and
        ValidTableTokenIdRoundTrip relies on it. */
    ghost predicate Valid()
      reads this
    {
      AllStamped(rows) && Assets.UniqueIds(rows)
    }

    constructor ()
      ensures Valid() && rows == []
    {
      rows := [];
    }

    /** Whether a row with the given id is already saved. */
    function HasId(id: string): (b: bool)
      reads this
      ensures b <==> exists i :: 0 <= i < |rows| && rows[i].id == id
    {
      exists i | 0 <= i < |rows| :: rows[i].id == id
    }

    /** insert: stamps parcel.id with buildId(x, y), then saves the row.
        A missing coordinate throws before anything changes; an id that is
        already saved is refused by the primary key after parcel.id has
        been stamped. */
    method Insert(parcel: ParcelDraft) returns (r: Result<ParcelRow, Error>)
      modifies this, parcel`id
      ensures old(Valid()) ==> Valid()
      ensures parcel.x.None? || parcel.y.None? ==>
        r == Failure(MissingCoordinates(parcel.x, parcel.y)) &&
        rows == old(rows) && parcel.id == old(parcel.id)
      ensures parcel.x.Some? && parcel.y.Some? ==>
        parcel.id == Some(CanonicalId(parcel.x.value, parcel.y.value))
      ensures parcel.x.Some? && parcel.y.Some? && old(HasId(CanonicalId(parcel.x.value, parcel.y.value))) ==>
        r == Failure(DuplicateId(CanonicalId(parcel.x.value, parcel.y.value))) && rows == old(rows)
      ensures parcel.x.Some? && parcel.y.Some? && !old(HasId(CanonicalId(parcel.x.value, parcel.y.value))) ==>
        r == Success(Assets.AssetRow(parcel.id.value, parcel.tokenId, parcel.owner,
                                     ParcelAttributes(parcel.x.value, parcel.y.value, parcel.districtId))) &&
        Stamped(r.value) &&
        rows == old(rows) + [r.value]
    {
      var built := BuildId(parcel.x, parcel.y);
      match built {
        case Failure(e) =>
          r := Failure(e);
        case Success(id) =>
          parcel.id := Some(id);
          if HasId(id) {
            r := Failure(DuplicateId(id));
          } else {
            var row := Assets.AssetRow(id, parcel.tokenId, parcel.owner,
                                       ParcelAttributes(parcel.x.value, parcel.y.value, parcel.districtId));
            rows := rows + [row];
            r := Success(row);
          }
      }
    }
  }
}
