/** Rows of the publications table (one listing event of one asset), as far
    as the asset and parcel queries read them. */
module Publications {
  import opened Results

  /** The on-chain state of a publication's transaction. */
  datatype TxStatus = Pending | Confirmed | Failed

  datatype Publication = Publication(
    assetId: string,
    assetType: string,
    status: string,
    txHash: Option<string>,
    txStatus: TxStatus,
    expiresAt: int,
    isLatest: bool)

  /** The single-latest-pointer invariant that the external writer keeps: no
      two rows of the table are both flagged latest for the same asset. */
  ghost predicate LatestPointerInvariant(pubs: seq<Publication>) {
    forall i, j :: 0 <= i < j < |pubs| && pubs[i].isLatest && pubs[j].isLatest ==>
      pubs[i].assetId != pubs[j].assetId
  }

  /** The assumed meaning of PublicationQueries.hasStatus, whose code is not
      part of this model: the given status when there is one, every row
      otherwise. */
  predicate PassThroughStatus(status: Option<string>, pub: Publication) {
    status.None? || pub.status == status.value
  }
}
