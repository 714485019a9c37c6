/** JSON-like records (objects keyed by property name) and the two library
    helpers the sanitizers call on them: omit, which copies a record without
    some keys, and mapOmit, which does so for every record of a list. */
module Records {

  /** The record without the keys listed in keys; every other key keeps its value. */
  function Omit<V>(record: map<string, V>, keys: seq<string>): (r: map<string, V>)
    ensures forall k :: k in r <==> k in record && k !in keys
    ensures forall k :: k in r ==> r[k] == record[k]
  {
    map k | k in record && k !in keys :: record[k]
  }

  /** Omit applied to each record, in order. */
  function MapOmit<V>(records: seq<map<string, V>>, keys: seq<string>): (r: seq<map<string, V>>)
    ensures |r| == |records|
    ensures forall i, k :: 0 <= i < |r| ==> (k in r[i] <==> k in records[i] && k !in keys)
    ensures forall i, k :: 0 <= i < |r| && k in r[i] ==> k in records[i] && r[i][k] == records[i][k]
  {
    seq(|records|, i requires 0 <= i < |records| => Omit(records[i], keys))
  }
}
