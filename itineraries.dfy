/**
 * The session's itinerary cache. Search reads already-sorted direct rows and
 * two-hop rows from the store and keeps, in that order and up to the requested
 * number, one entry per itinerary; book later refers to an entry by its index.
 */
module Itineraries {
  import opened Store

  /** A cache entry: total time, day, first flight and, for a two-hop itinerary, the second flight. */
  datatype Itinerary = Itinerary(time: int, day: int, fid1: int, fid2: Option<int>)

  /** A row of the direct-flight query. */
  datatype DirectRow = DirectRow(fid: int, day: int, time: int)

  /** A row of the two-hop query: both flights, the first flight's day and the total time. */
  datatype TwoHopRow = TwoHopRow(fid1: int, day1: int, fid2: int, totalTime: int)

  /** An itinerary as the search listing numbers it. */
  datatype Listed = Listed(ordinal: int, itinerary: Itinerary)

  /** The entry `[time, day, fid]` of a direct row. */
  function DirectEntry(row: DirectRow): Itinerary
  {
    Itinerary(row.time, row.day, row.fid, None)
  }

  /** The entry `[time, day1, fid1, fid2]` of a two-hop row. */
  function TwoHopEntry(row: TwoHopRow): Itinerary
  {
    Itinerary(row.totalTime, row.day1, row.fid1, Some(row.fid2))
  }

  function Min(a: int, b: int): int
  {
    if a <= b then a else b
  }

  function Max(a: int, b: int): int
  {
    if a <= b then b else a
  }

  /** How many direct rows the first loop takes: all of them, or as many as were asked for. */
  function DirectTaken(direct: seq<DirectRow>, limit: int): nat
  {
    Min(|direct|, Max(limit, 0))
  }

  /** How many two-hop rows the second loop takes: they fill what the direct rows left. */
  function TwoHopTaken(direct: seq<DirectRow>, twoHop: seq<TwoHopRow>, limit: int): nat
  {
    Min(|twoHop|, Max(limit - DirectTaken(direct, limit), 0))
  }

  /** The cache a search leaves: the direct entries taken, then the two-hop entries taken. */
  function SearchCache(direct: seq<DirectRow>, twoHop: seq<TwoHopRow>, limit: int): seq<Itinerary>
  {
    var k, m := DirectTaken(direct, limit), TwoHopTaken(direct, twoHop, limit);
    seq(k, i requires 0 <= i < k => DirectEntry(direct[i]))
    + seq(m, j requires 0 <= j < m => TwoHopEntry(twoHop[j]))
  }

  /**
   * The cache holds min(limit, |direct| + |twoHop|) entries (none for a limit of zero
   * or less); direct rows are used up before any two-hop row is taken.
   */
  lemma SearchCacheSize(direct: seq<DirectRow>, twoHop: seq<TwoHopRow>, limit: int)
    ensures |SearchCache(direct, twoHop, limit)| == Min(Max(limit, 0), |direct| + |twoHop|)
    ensures TwoHopTaken(direct, twoHop, limit) > 0 ==> DirectTaken(direct, limit) == |direct|
  {
  }

  /**
   * Entry i of the cache is the i-th direct row while there are direct entries, then
   * the two-hop rows in their order; every direct entry comes before every two-hop one.
   */
  lemma SearchCacheOrder(direct: seq<DirectRow>, twoHop: seq<TwoHopRow>, limit: int)
    ensures var cache, k := SearchCache(direct, twoHop, limit), DirectTaken(direct, limit);
      && (forall i :: 0 <= i < k ==> cache[i] == DirectEntry(direct[i]) && cache[i].fid2.None?)
      && (forall i :: k <= i < |cache| ==> cache[i] == TwoHopEntry(twoHop[i - k]) && cache[i].fid2.Some?)
      && (forall i, j :: 0 <= i < j < |cache| && cache[j].fid2.None? ==> cache[i].fid2.None?)
  {
  }
}
