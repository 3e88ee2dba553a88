/** The finalise pass of the management command, `process_addresses`:
    every RawBloco not yet processed is geocoded, copied into a new Bloco
    and marked processed. The geocoder is a parameter. */
module Finalize {
  import opened Wrappers
  import opened Models
  import Geocoding

  /** The coordinates `get_coordinates` finds for a RawBloco's address. */
  function Coordinates(raw: RawBloco, geocode: string -> Geocoding.GoogleReply): Option<(real, real)> {
    Geocoding.GoogleCoordinates(geocode(Geocoding.GeocodeQuery(raw.city, raw.address)))
  }

  /** The coordinates of every RawBloco under one geocoder. */
  function Locator(geocode: string -> Geocoding.GoogleReply): RawBloco -> Option<(real, real)> {
    raw => Coordinates(raw, geocode)
  }

  /** The Bloco created for the RawBloco at position `k`. */
  function Finalized(k: nat, raw: RawBloco, coords: Option<(real, real)>): (b: Bloco)
    ensures b.rawData == k && PairedCoordinates(b)
    ensures b.latitude.Some? <==> coords.Some?
    ensures coords.Some? ==> b.latitude == Some(coords.value.0) && b.longitude == Some(coords.value.1)
  {
    Bloco(k, raw.city, raw.name, raw.subtitle, raw.description, raw.ticketInfo, raw.ticketUrl,
          raw.address, raw.addressGmapsUrl, raw.eventPageUrl, raw.eventDate, raw.eventDay,
          raw.eventTime, raw.neighborhood,
          if coords.Some? then Some(coords.value.0) else None,
          if coords.Some? then Some(coords.value.1) else None)
  }

  /** A Bloco carries every descriptive field of its RawBloco, reads as
      it without the `[RAW] ` mark, and fits the same columns. */
  lemma FinalizedCopies(k: nat, raw: RawBloco, coords: Option<(real, real)>)
    ensures var b := Finalized(k, raw, coords);
            && b.city == raw.city && b.name == raw.name && b.subtitle == raw.subtitle
            && b.description == raw.description && b.ticketInfo == raw.ticketInfo
            && b.ticketUrl == raw.ticketUrl && b.address == raw.address
            && b.addressGmapsUrl == raw.addressGmapsUrl && b.eventPageUrl == raw.eventPageUrl
            && b.eventDate == raw.eventDate && b.eventDay == raw.eventDay
            && b.eventTime == raw.eventTime && b.neighborhood == raw.neighborhood
    ensures RawBlocoText(raw) == "[RAW] " + BlocoText(Finalized(k, raw, coords))
    ensures RawBlocoFits(raw) ==> BlocoFits(Finalized(k, raw, coords))
  {
  }

  /** The Blocos created for the first `n` RawBlocos, in table order. */
  function NewBlocos(raws: seq<RawBloco>, locate: RawBloco -> Option<(real, real)>, n: nat): seq<Bloco>
    requires n <= |raws|
  {
    if n == 0 then []
    else
      NewBlocos(raws, locate, n - 1)
      + (if raws[n - 1].processed then [] else [Finalized(n - 1, raws[n - 1], locate(raws[n - 1]))])
  }

  /** `b` is the Bloco created for the unprocessed RawBloco it points at. */
  predicate MadeFrom(b: Bloco, raws: seq<RawBloco>, locate: RawBloco -> Option<(real, real)>) {
    b.rawData < |raws| && !raws[b.rawData].processed
    && b == Finalized(b.rawData, raws[b.rawData], locate(raws[b.rawData]))
  }

  /** Each new Bloco is built from its own unprocessed RawBloco, among the
      first `n`, with that RawBloco's fields and coordinates. */
  lemma {:induction false} NewBlocosMadeFrom(raws: seq<RawBloco>, locate: RawBloco -> Option<(real, real)>, n: nat)
    requires n <= |raws|
    ensures forall b :: b in NewBlocos(raws, locate, n) ==> b.rawData < n && MadeFrom(b, raws, locate)
  {
    if n > 0 {
      NewBlocosMadeFrom(raws, locate, n - 1);
    }
  }

  /** Blocos in strictly increasing order of the RawBloco they point at. */
  predicate InRawOrder(bs: seq<Bloco>) {
    forall i, j :: 0 <= i < j < |bs| ==> bs[i].rawData < bs[j].rawData
  }

  /** The new Blocos are in table order of their RawBlocos, one each. */
  lemma {:induction false} NewBlocosIncreasing(raws: seq<RawBloco>, locate: RawBloco -> Option<(real, real)>, n: nat)
    requires n <= |raws|
    ensures InRawOrder(NewBlocos(raws, locate, n))
  {
    if n > 0 {
      NewBlocosIncreasing(raws, locate, n - 1);
      NewBlocosMadeFrom(raws, locate, n - 1);
      var prev := NewBlocos(raws, locate, n - 1);
      var bs := NewBlocos(raws, locate, n);
      var tail := if raws[n - 1].processed then [] else [Finalized(n - 1, raws[n - 1], locate(raws[n - 1]))];
      assert bs == prev + tail;
      forall i, j | 0 <= i < j < |bs| ensures bs[i].rawData < bs[j].rawData {
        if j < |prev| {
          assert bs[i] == prev[i] && bs[j] == prev[j];
          assert prev[i].rawData < prev[j].rawData;
        } else {
          assert i < |prev| && bs[i] == prev[i] && prev[i] in prev;
          assert prev[i].rawData < n - 1;
          assert bs[j] == tail[0] && tail[0].rawData == n - 1;
        }
      }
    }
  }

  /** Every unprocessed RawBloco among the first `n` gets a Bloco. */
  lemma {:induction false} NewBlocosCover(raws: seq<RawBloco>, locate: RawBloco -> Option<(real, real)>, n: nat)
    requires n <= |raws|
    ensures forall k :: 0 <= k < n && !raws[k].processed ==>
              exists b :: b in NewBlocos(raws, locate, n) && b.rawData == k
  {
    if n > 0 {
      NewBlocosCover(raws, locate, n - 1);
      var bs := NewBlocos(raws, locate, n);
      if !raws[n - 1].processed {
        assert bs[|bs| - 1].rawData == n - 1;
      }
    }
  }

  /** Every RawBloco marked processed, the effect of the pass on that table. */
  function MarkAll(raws: seq<RawBloco>): (r: seq<RawBloco>)
    ensures |r| == |raws|
    ensures forall k :: 0 <= k < |raws| ==> r[k] == raws[k].(processed := true)
  {
    seq(|raws|, k requires 0 <= k < |raws| => raws[k].(processed := true))
  }

  predicate AllProcessed(raws: seq<RawBloco>) {
    forall k :: 0 <= k < |raws| ==> raws[k].processed
  }

  /** With nothing to process the pass creates nothing, and a second pass
      after a first one creates nothing either. */
  lemma {:induction false} NothingPending(raws: seq<RawBloco>, locate: RawBloco -> Option<(real, real)>, n: nat)
    requires n <= |raws|
    ensures AllProcessed(raws) ==> NewBlocos(raws, locate, n) == [] && MarkAll(raws) == raws
    ensures AllProcessed(MarkAll(raws))
  {
    if n > 0 {
      NothingPending(raws, locate, n - 1);
    }
  }

  /** Appending Blocos in RawBloco order that point at other RawBlocos
      than the existing ones keeps the tables consistent. */
  lemma AppendBlocos(raws: seq<RawBloco>, blocos: seq<Bloco>, added: seq<Bloco>, cities: seq<City>)
    requires Consistent(raws, blocos, cities)
    requires BlocosLinked(raws, added) && InRawOrder(added)
    requires forall k :: 0 <= k < |added| ==> PairedCoordinates(added[k])
    requires forall i, j :: 0 <= i < |blocos| && 0 <= j < |added| ==> blocos[i].rawData != added[j].rawData
    ensures Consistent(raws, blocos + added, cities)
  {
    var all := blocos + added;
    forall i, j | 0 <= i < j < |all| ensures all[i].rawData != all[j].rawData {
      if j < |blocos| {
        assert all[i] == blocos[i] && all[j] == blocos[j];
      } else if i < |blocos| {
        assert all[i] == blocos[i] && all[j] == added[j - |blocos|];
      } else {
        assert all[i] == added[i - |blocos|] && all[j] == added[j - |blocos|];
      }
    }
    forall k | 0 <= k < |all|
      ensures all[k].rawData < |raws| && raws[all[k].rawData].processed && PairedCoordinates(all[k])
    {
      if k < |blocos| {
        assert all[k] == blocos[k];
      } else {
        assert all[k] == added[k - |blocos|];
      }
    }
  }

  /** The tables stay consistent: the old Blocos point at processed
      RawBlocos, the new ones at RawBlocos that were not, and all are
      marked now. */
  lemma FinalizeKeepsConsistent(raws: seq<RawBloco>, blocos: seq<Bloco>, cities: seq<City>,
                                locate: RawBloco -> Option<(real, real)>)
    requires Consistent(raws, blocos, cities)
    ensures Consistent(MarkAll(raws), blocos + NewBlocos(raws, locate, |raws|), cities)
  {
    var added := NewBlocos(raws, locate, |raws|);
    var marked := MarkAll(raws);
    NewBlocosMadeFrom(raws, locate, |raws|);
    NewBlocosIncreasing(raws, locate, |raws|);
    forall j | 0 <= j < |added|
      ensures added[j].rawData < |raws| && !raws[added[j].rawData].processed && PairedCoordinates(added[j])
    {
      assert added[j] in added;
    }
    assert Consistent(marked, blocos, cities);
    AppendBlocos(marked, blocos, added, cities);
  }

  /** The loop of `process_addresses` over the RawBloco table: each
      unprocessed RawBloco, in table order, gets its Bloco and is marked
      processed. */
  method FinalizeRows(raws: seq<RawBloco>, locate: RawBloco -> Option<(real, real)>)
    returns (marked: seq<RawBloco>, added: seq<Bloco>)
    ensures marked == MarkAll(raws)
    ensures added == NewBlocos(raws, locate, |raws|)
  {
    marked, added := raws, [];
    var i := 0;
    while i < |raws|
      invariant 0 <= i <= |raws| == |marked|
      invariant added == NewBlocos(raws, locate, i)
      invariant forall k :: 0 <= k < i ==> marked[k] == raws[k].(processed := true)
      invariant forall k :: i <= k < |raws| ==> marked[k] == raws[k]
    {
      var raw := marked[i];
      if !raw.processed {
        var coords := locate(raw);
        added := added + [Finalized(i, raw, coords)];
        marked := marked[i := raw.(processed := true)];
      }
      i := i + 1;
    }
  }

  /** `process_addresses` after its early return, in one transaction: the
      Blocos are appended and the RawBlocos marked. */
  method FinalizeAll(db: Database, locate: RawBloco -> Option<(real, real)>)
    requires db.Valid()
    modifies db
    ensures db.Valid()
    ensures db.blocos == old(db.blocos) + NewBlocos(old(db.raws), locate, |old(db.raws)|)
    ensures db.raws == MarkAll(old(db.raws))
    ensures db.cities == old(db.cities)
  {
    FinalizeKeepsConsistent(db.raws, db.blocos, db.cities, locate);
    var marked, added := FinalizeRows(db.raws, locate);
    db.raws, db.blocos := marked, db.blocos + added;
  }

  /** `process_addresses`: with no unprocessed RawBloco nothing changes;
      otherwise every one of them is finalised with the coordinates of its
      query. */
  method ProcessAddresses(db: Database, geocode: string -> Geocoding.GoogleReply)
    requires db.Valid()
    modifies db
    ensures db.Valid()
    ensures db.blocos == old(db.blocos) + NewBlocos(old(db.raws), Locator(geocode), |old(db.raws)|)
    ensures db.raws == MarkAll(old(db.raws))
    ensures db.cities == old(db.cities)
  {
    if AllProcessed(db.raws) {
      NothingPending(db.raws, Locator(geocode), |db.raws|);
      assert db.blocos + [] == db.blocos;
      return;
    }
    FinalizeAll(db, Locator(geocode));
  }
}
