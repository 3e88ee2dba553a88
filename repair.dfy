/** The `fill_neighborhood` management command: every Bloco with a subtitle
    gets as neighbourhood the text after the subtitle's `HH:MM`, and the
    command reports how many Blocos it changed. */
module Repair {
  import opened Wrappers
  import opened Dates
  import opened Models
  import Subtitle

  /** The neighbourhood the command extracts for a Bloco: None for a null
      or empty subtitle, which the query excludes, and for a subtitle the
      expression does not match. */
  function Extracted(b: Bloco): (r: Option<string>)
    ensures b.subtitle.None? || b.subtitle == Some("") ==> r.None?
    ensures r.Some? ==> r == Subtitle.RepairNeighborhood(b.subtitle.value)
    ensures b.subtitle.Some? && b.subtitle.value != "" ==> r == Subtitle.RepairNeighborhood(b.subtitle.value)
  {
    if b.subtitle.None? || b.subtitle.value == "" then None
    else Subtitle.RepairNeighborhood(b.subtitle.value)
  }

  /** The extraction reads only the subtitle. */
  lemma ExtractedReadsSubtitle(b: Bloco, n: string)
    ensures Extracted(b.(neighborhood := n)) == Extracted(b)
  {
  }

  /** `Extracted` as a value, for the definitions below. */
  function Extractor(): Bloco -> Option<string> {
    b => Extracted(b)
  }

  /** An extraction that, like `Extracted`, ignores the neighbourhood. */
  ghost predicate IgnoresNeighborhood(extract: Bloco -> Option<string>) {
    forall b: Bloco, n: string :: extract(b.(neighborhood := n)) == extract(b)
  }

  lemma ExtractorIgnoresNeighborhood()
    ensures IgnoresNeighborhood(Extractor())
  {
    forall b: Bloco, n: string ensures Extractor()(b.(neighborhood := n)) == Extractor()(b) {
      ExtractedReadsSubtitle(b, n);
    }
  }

  /** Whether the command saves the Bloco: it extracts a neighbourhood that
      differs from the stored one. */
  predicate Changes(b: Bloco, extract: Bloco -> Option<string>) {
    extract(b).Some? && extract(b).value != b.neighborhood
  }

  /** The Bloco after the command. */
  function Repaired(b: Bloco, extract: Bloco -> Option<string>): (r: Bloco)
    ensures r.(neighborhood := b.neighborhood) == b
    ensures extract(b).Some? ==> r.neighborhood == extract(b).value
    ensures extract(b).None? ==> r == b
  {
    if Changes(b, extract) then b.(neighborhood := extract(b).value) else b
  }

  /** A Bloco is saved exactly when the command changes it. */
  lemma ChangesIff(b: Bloco, extract: Bloco -> Option<string>)
    ensures Changes(b, extract) <==> Repaired(b, extract) != b
  {
  }

  /** Repairing twice is repairing once: extraction reads only the
      subtitle, which the command does not touch. */
  lemma RepairedIdempotent(b: Bloco, extract: Bloco -> Option<string>)
    requires IgnoresNeighborhood(extract)
    ensures Repaired(Repaired(b, extract), extract) == Repaired(b, extract)
    ensures !Changes(Repaired(b, extract), extract)
  {
    if Changes(b, extract) {
      assert extract(b.(neighborhood := extract(b).value)) == extract(b);
    }
  }

  function RepairAll(blocos: seq<Bloco>, extract: Bloco -> Option<string>): (r: seq<Bloco>)
    ensures |r| == |blocos|
    ensures forall k :: 0 <= k < |blocos| ==> r[k] == Repaired(blocos[k], extract)
  {
    seq(|blocos|, k requires 0 <= k < |blocos| => Repaired(blocos[k], extract))
  }

  /** The number of Blocos the command saves. */
  function ChangedCount(blocos: seq<Bloco>, extract: Bloco -> Option<string>): (n: nat)
    ensures n <= |blocos|
  {
    if blocos == [] then 0
    else ChangedCount(blocos[..|blocos| - 1], extract) + (if Changes(blocos[|blocos| - 1], extract) then 1 else 0)
  }

  /** The positions the command saves. */
  function ChangedAt(blocos: seq<Bloco>, extract: Bloco -> Option<string>): set<nat> {
    set k: nat | k < |blocos| && Changes(blocos[k], extract)
  }

  /** The count is the number of Blocos saved. */
  lemma {:induction false} ChangedCountIsSaved(blocos: seq<Bloco>, extract: Bloco -> Option<string>)
    ensures ChangedCount(blocos, extract) == |ChangedAt(blocos, extract)|
  {
    if blocos != [] {
      var n := |blocos| - 1;
      var init := blocos[..n];
      ChangedCountIsSaved(init, extract);
      assert forall k :: 0 <= k < n ==> init[k] == blocos[k];
      var prev, all := ChangedAt(init, extract), ChangedAt(blocos, extract);
      if Changes(blocos[n], extract) {
        assert all == prev + {n};
      } else {
        assert all == prev;
      }
    }
  }

  /** The saved positions are those where the table differs afterwards. */
  lemma ChangedAtDiffers(blocos: seq<Bloco>, extract: Bloco -> Option<string>)
    ensures forall k :: 0 <= k < |blocos| ==> (k in ChangedAt(blocos, extract) <==> RepairAll(blocos, extract)[k] != blocos[k])
  {
    forall k | 0 <= k < |blocos| ensures k in ChangedAt(blocos, extract) <==> RepairAll(blocos, extract)[k] != blocos[k] {
      ChangesIff(blocos[k], extract);
    }
  }

  lemma {:induction false} NoChangesCountZero(blocos: seq<Bloco>, extract: Bloco -> Option<string>)
    requires forall k :: 0 <= k < |blocos| ==> blocos[k] == Repaired(blocos[k], extract)
    ensures ChangedCount(blocos, extract) == 0
  {
    if blocos != [] {
      var n := |blocos| - 1;
      ChangesIff(blocos[n], extract);
      NoChangesCountZero(blocos[..n], extract);
    }
  }

  /** A second run finds nothing to change and reports 0. */
  lemma RepairAllIdempotent(blocos: seq<Bloco>, extract: Bloco -> Option<string>)
    requires IgnoresNeighborhood(extract)
    ensures RepairAll(RepairAll(blocos, extract), extract) == RepairAll(blocos, extract)
    ensures ChangedCount(RepairAll(blocos, extract), extract) == 0
  {
    var once := RepairAll(blocos, extract);
    forall k | 0 <= k < |blocos| ensures Repaired(once[k], extract) == once[k] {
      RepairedIdempotent(blocos[k], extract);
    }
    NoChangesCountZero(once, extract);
  }

  /** A changed neighbourhood keeps the tables consistent. */
  lemma RepairKeepsConsistent(raws: seq<RawBloco>, blocos: seq<Bloco>, cities: seq<City>,
                              extract: Bloco -> Option<string>)
    requires Consistent(raws, blocos, cities)
    ensures Consistent(raws, RepairAll(blocos, extract), cities)
  {
  }

  /** The loop of the command over the Blocos: each Bloco with a new
      neighbourhood is replaced and counted. */
  method RepairRows(blocos: seq<Bloco>, extract: Bloco -> Option<string>) returns (repaired: seq<Bloco>, updated: nat)
    ensures repaired == RepairAll(blocos, extract)
    ensures updated == ChangedCount(blocos, extract)
  {
    repaired := blocos;
    updated := 0;
    var i := 0;
    while i < |blocos|
      invariant 0 <= i <= |blocos| == |repaired|
      invariant forall k :: 0 <= k < i ==> repaired[k] == Repaired(blocos[k], extract)
      invariant forall k :: i <= k < |blocos| ==> repaired[k] == blocos[k]
      invariant updated == ChangedCount(blocos[..i], extract)
    {
      ChangedCountStep(blocos, i, extract);
      var b := repaired[i];
      var found := extract(b);
      if found.Some? && b.neighborhood != found.value {
        repaired := repaired[i := b.(neighborhood := found.value)];
        updated := updated + 1;
      }
      i := i + 1;
    }
    assert blocos[..i] == blocos;
  }

  /** The command's loop on the tables: only the Blocos change. */
  method RepairLoop(db: Database, extract: Bloco -> Option<string>) returns (updated: nat)
    requires db.Valid()
    modifies db
    ensures db.Valid()
    ensures db.blocos == RepairAll(old(db.blocos), extract)
    ensures updated == ChangedCount(old(db.blocos), extract)
    ensures db.raws == old(db.raws) && db.cities == old(db.cities)
  {
    RepairKeepsConsistent(db.raws, db.blocos, db.cities, extract);
    var repaired;
    repaired, updated := RepairRows(db.blocos, extract);
    db.blocos := repaired;
  }

  /** One more Bloco counts one more exactly when the command changes it. */
  lemma ChangedCountStep(blocos: seq<Bloco>, i: nat, extract: Bloco -> Option<string>)
    requires i < |blocos|
    ensures ChangedCount(blocos[..i + 1], extract)
            == ChangedCount(blocos[..i], extract) + (if Changes(blocos[i], extract) then 1 else 0)
  {
    assert blocos[..i + 1][..i] == blocos[..i];
  }

  /** `fill_neighborhood`: the loop with the command's own extraction. */
  method FillNeighborhood(db: Database) returns (updated: nat)
    requires db.Valid()
    modifies db
    ensures db.Valid()
    ensures db.blocos == RepairAll(old(db.blocos), Extractor())
    ensures updated == ChangedCount(old(db.blocos), Extractor())
    ensures db.raws == old(db.raws) && db.cities == old(db.cities)
  {
    updated := RepairLoop(db, Extractor());
  }

  /** The neighbourhood of a well-formed subtitle: the scraper keeps the time
      in front of it and the repair takes it off. */
  lemma ScraperAndRepairDiffer(d: Date, day: string, time: string, place: string)
    requires ValidDate(d) && Subtitle.WellFormedParts(day, time, place)
    ensures var s := Subtitle.Compose(d, day, time, place);
            && Subtitle.ParseEventSubtitle(s).Some?
            && Subtitle.ParseEventSubtitle(s).value.neighborhood == Text.Strip(time + " " + place)
            && Subtitle.RepairNeighborhood(s) == Some(Text.Strip(place))
  {
    Subtitle.ScraperWellFormed(d, day, time, place);
    Subtitle.RepairWellFormed(d, day, time, place);
  }
}
