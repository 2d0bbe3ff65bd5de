/** Aggregation (`aggregate_products`): one record per fingerprint group, with a
    display title, the rounded mean price and the group size, the largest groups
    first. */
module Aggregate {
  import opened Wrappers
  import opened Rows
  import opened Stats
  import opened Rounding
  import opened Anomaly

  /** The distinct fingerprints of the feed, in order of first occurrence. */
  function Keys(rows: seq<EnrichedRow>): (ks: seq<string>)
    ensures forall i, j :: 0 <= i < j < |ks| ==> ks[i] != ks[j]
    ensures forall fp :: fp in ks <==> exists i :: 0 <= i < |rows| && rows[i].fingerprint == fp
    decreases |rows|
  {
    if rows == [] then []
    else
      var init := rows[..|rows| - 1];
      var ks := Keys(init);
      var fp := rows[|rows| - 1].fingerprint;
      assert forall i :: 0 <= i < |init| ==> rows[i] == init[i];
      if fp in ks then ks else ks + [fp]
  }

  /** The rows of group fp, in feed order. */
  function Members(rows: seq<EnrichedRow>, fp: string): (ms: seq<EnrichedRow>)
    ensures forall i :: 0 <= i < |ms| ==> ms[i].fingerprint == fp && ms[i] in rows
    decreases |rows|
  {
    if rows == [] then []
    else
      var last := rows[|rows| - 1];
      var init := Members(rows[..|rows| - 1], fp);
      assert forall x :: x in rows[..|rows| - 1] ==> x in rows;
      if last.fingerprint == fp then init + [last] else init
  }

  /** `sort_by(len_chars, descending).first()`: a longest raw name of the group.
      Among names of the same length the first in feed order is taken. */
  function LongestName(ms: seq<EnrichedRow>): (name: string)
    requires ms != []
    ensures exists i :: 0 <= i < |ms| && ms[i].raw.rawName == name
    ensures forall i :: 0 <= i < |ms| ==> |ms[i].raw.rawName| <= |name|
  {
    if |ms| == 1 then ms[0].raw.rawName
    else
      var rest := LongestName(ms[1..]);
      assert forall i :: 1 <= i < |ms| ==> ms[i] == ms[1..][i - 1];
      if |ms[0].raw.rawName| >= |rest| then ms[0].raw.rawName else rest
  }

  /** `mean().round(2)`: absent stays absent. */
  function RoundedMean(m: Option<real>): (r: Option<real>)
    ensures r.Some? <==> m.Some?
    ensures r.Some? ==> IsCents(r.value) && -1.0 / 200.0 < r.value - m.value <= 1.0 / 200.0
  {
    match m
    case None => None
    case Some(v) => Some(Round2(v))
  }

  /** The record of group fp. */
  function Record(rows: seq<EnrichedRow>, fp: string): AggregateRecord
    requires Members(rows, fp) != []
  {
    AggregateRecord(LongestName(Members(rows, fp)), RoundedMean(GroupMean(rows, fp)), |Members(rows, fp)|)
  }

  /** The records of the groups ks, in that order. */
  function RecordsFor(rows: seq<EnrichedRow>, ks: seq<string>): (recs: seq<AggregateRecord>)
    requires forall i :: 0 <= i < |ks| ==> Members(rows, ks[i]) != []
    ensures |recs| == |ks|
    ensures forall i :: 0 <= i < |ks| ==> recs[i] == Record(rows, ks[i])
  {
    if ks == [] then [] else [Record(rows, ks[0])] + RecordsFor(rows, ks[1..])
  }

  function SumCounts(recs: seq<AggregateRecord>): nat {
    if recs == [] then 0 else recs[0].occurrenceCount + SumCounts(recs[1..])
  }

  /** Counts never increase from one record to a later one. */
  predicate ByCountDescending(recs: seq<AggregateRecord>) {
    forall i, j :: 0 <= i < j < |recs| ==> recs[i].occurrenceCount >= recs[j].occurrenceCount
  }

  /** x placed before the first record whose count is not larger than its own. */
  function InsertByCount(x: AggregateRecord, recs: seq<AggregateRecord>): (r: seq<AggregateRecord>)
    requires ByCountDescending(recs)
    ensures ByCountDescending(r)
    ensures multiset(r) == multiset(recs) + multiset{x}
    ensures SumCounts(r) == SumCounts(recs) + x.occurrenceCount
  {
    if recs == [] || x.occurrenceCount >= recs[0].occurrenceCount then
      PrependLargest(x, recs);
      [x] + recs
    else
      var t := InsertByCount(x, recs[1..]);
      InsertedBelowHead(x, recs, t);
      PrependLargest(recs[0], t);
      [recs[0]] + t
  }

  /** Putting in front a record whose count is at least every count of a descending
      sequence keeps it descending, and adds that record and its count. */
  lemma PrependLargest(y: AggregateRecord, t: seq<AggregateRecord>)
    requires ByCountDescending(t)
    requires t != [] ==> y.occurrenceCount >= t[0].occurrenceCount
    ensures ByCountDescending([y] + t)
    ensures multiset([y] + t) == multiset(t) + multiset{y}
    ensures SumCounts([y] + t) == SumCounts(t) + y.occurrenceCount
  {
    assert ([y] + t)[1..] == t;
  }

  /** Inserting x, whose count is smaller than the head's, into the tail of a
      descending sequence yields records none of which outcounts the head. */
  lemma InsertedBelowHead(x: AggregateRecord, recs: seq<AggregateRecord>, t: seq<AggregateRecord>)
    requires recs != [] && ByCountDescending(recs)
    requires x.occurrenceCount < recs[0].occurrenceCount
    requires multiset(t) == multiset(recs[1..]) + multiset{x}
    ensures recs == [recs[0]] + recs[1..]
    ensures t != [] ==> recs[0].occurrenceCount >= t[0].occurrenceCount
  {
    if t != [] && t[0] != x {
      assert t[0] in multiset(t);
      assert t[0] in multiset(recs[1..]);
      var k :| 0 <= k < |recs[1..]| && recs[1..][k] == t[0];
      assert recs[k + 1] == t[0];
    }
  }

  /** `sort("occurrence_count", descending=True)`. */
  function SortByCount(recs: seq<AggregateRecord>): (r: seq<AggregateRecord>)
    ensures ByCountDescending(r)
    ensures multiset(r) == multiset(recs)
    ensures SumCounts(r) == SumCounts(recs)
  {
    if recs == [] then []
    else
      assert recs == [recs[0]] + recs[1..];
      InsertByCount(recs[0], SortByCount(recs[1..]))
  }

  lemma KeysHaveMembers(rows: seq<EnrichedRow>)
    ensures forall i :: 0 <= i < |Keys(rows)| ==> Members(rows, Keys(rows)[i]) != []
  {
    forall i | 0 <= i < |Keys(rows)| ensures Members(rows, Keys(rows)[i]) != [] {
      var fp := Keys(rows)[i];
      assert fp in Keys(rows);
      var j :| 0 <= j < |rows| && rows[j].fingerprint == fp;
      MemberOfGroup(rows, j);
    }
  }

  /** Every row belongs to the group of its fingerprint. */
  lemma {:induction false} MemberOfGroup(rows: seq<EnrichedRow>, j: nat)
    requires j < |rows|
    ensures rows[j] in Members(rows, rows[j].fingerprint)
    decreases |rows|
  {
    var n := |rows| - 1;
    if j < n {
      assert rows[..n][j] == rows[j];
      MemberOfGroup(rows[..n], j);
    }
  }

  /** The records of all groups, in order of first occurrence of their fingerprints. */
  function GroupRecords(rows: seq<EnrichedRow>): (recs: seq<AggregateRecord>)
    ensures |recs| == |Keys(rows)|
  {
    KeysHaveMembers(rows);
    RecordsFor(rows, Keys(rows))
  }

  function AggregateProducts(rows: seq<EnrichedRow>): seq<AggregateRecord> {
    SortByCount(GroupRecords(rows))
  }

  // ------------------------------------------------------------------ counting

  /** The group sizes of the groups ks. */
  function GroupSizes(rows: seq<EnrichedRow>, ks: seq<string>): nat {
    if ks == [] then 0 else |Members(rows, ks[0])| + GroupSizes(rows, ks[1..])
  }

  lemma {:induction false} GroupSizesAppendKey(rows: seq<EnrichedRow>, ks: seq<string>, fp: string)
    ensures GroupSizes(rows, ks + [fp]) == GroupSizes(rows, ks) + |Members(rows, fp)|
  {
    if ks != [] {
      assert (ks + [fp])[1..] == ks[1..] + [fp];
      GroupSizesAppendKey(rows, ks[1..], fp);
    } else {
      assert [fp][1..] == [];
    }
  }

  /** One more row adds one to the size of its own group, if that group is listed
      (once) in ks, and nothing to the others. */
  lemma {:induction false} GroupSizesAppendRow(rows: seq<EnrichedRow>, ks: seq<string>)
    requires rows != []
    requires forall i, j :: 0 <= i < j < |ks| ==> ks[i] != ks[j]
    ensures GroupSizes(rows, ks)
         == GroupSizes(rows[..|rows| - 1], ks) + (if rows[|rows| - 1].fingerprint in ks then 1 else 0)
  {
    if ks != [] {
      GroupSizesAppendRow(rows, ks[1..]);
      var fp := rows[|rows| - 1].fingerprint;
      assert fp in ks <==> fp == ks[0] || fp in ks[1..] by {
        assert ks == [ks[0]] + ks[1..];
      }
      if fp == ks[0] {
        assert fp !in ks[1..];
      }
    }
  }

  /** A fingerprint no row carries has an empty group. */
  lemma {:induction false} NoMembers(rows: seq<EnrichedRow>, fp: string)
    requires forall i :: 0 <= i < |rows| ==> rows[i].fingerprint != fp
    ensures Members(rows, fp) == []
  {
    if rows != [] {
      NoMembers(rows[..|rows| - 1], fp);
    }
  }

  /** The groups partition the feed: their sizes add up to the number of rows. */
  lemma {:induction false} GroupSizesCoverFeed(rows: seq<EnrichedRow>)
    ensures GroupSizes(rows, Keys(rows)) == |rows|
    decreases |rows|
  {
    if rows != [] {
      var init := rows[..|rows| - 1];
      var fp := rows[|rows| - 1].fingerprint;
      var ks := Keys(init);
      GroupSizesCoverFeed(init);
      GroupSizesAppendRow(rows, ks);
      if fp !in ks {
        GroupSizesAppendKey(rows, ks, fp);
        GroupSizesAppendRow(rows, ks + [fp]);
        assert forall i, j :: 0 <= i < j < |ks + [fp]| ==> (ks + [fp])[i] != (ks + [fp])[j];
        assert fp in ks + [fp];
        NoMembers(init, fp);
        GroupSizesAppendKey(init, ks, fp);
      }
    }
  }

  lemma {:induction false} RecordCountsAreGroupSizes(rows: seq<EnrichedRow>, ks: seq<string>)
    requires forall i :: 0 <= i < |ks| ==> Members(rows, ks[i]) != []
    ensures SumCounts(RecordsFor(rows, ks)) == GroupSizes(rows, ks)
  {
    if ks != [] {
      RecordCountsAreGroupSizes(rows, ks[1..]);
      assert RecordsFor(rows, ks)[1..] == RecordsFor(rows, ks[1..]);
    }
  }

  // ---------------------------------------------------------- what it promises

  /** The records come largest group first. */
  lemma AggregateOrdered(rows: seq<EnrichedRow>)
    ensures ByCountDescending(AggregateProducts(rows))
  {
  }

  /** Exactly one record per distinct fingerprint: the output is a reordering of the
      records of the distinct fingerprints. */
  lemma AggregateOnePerGroup(rows: seq<EnrichedRow>)
    ensures multiset(AggregateProducts(rows)) == multiset(GroupRecords(rows))
    ensures |AggregateProducts(rows)| == |Keys(rows)|
  {
    assert |multiset(AggregateProducts(rows))| == |multiset(GroupRecords(rows))|;
  }

  /** The occurrence counts add up to the number of rows aggregated. */
  lemma AggregateCountsSum(rows: seq<EnrichedRow>)
    ensures SumCounts(AggregateProducts(rows)) == |rows|
  {
    KeysHaveMembers(rows);
    RecordCountsAreGroupSizes(rows, Keys(rows));
    GroupSizesCoverFeed(rows);
  }

  /** The record of a group: the group's size (at least one), a longest raw name of
      the group, and the group's mean price rounded to the cent. */
  lemma RecordOfGroup(rows: seq<EnrichedRow>, fp: string)
    requires fp in Keys(rows)
    ensures Members(rows, fp) != []
    ensures var rec := Record(rows, fp);
      && rec.occurrenceCount == |Members(rows, fp)| >= 1
      && (exists i :: 0 <= i < |rows| && rows[i].fingerprint == fp && rows[i].raw.rawName == rec.displayTitle)
      && (forall i :: 0 <= i < |rows| && rows[i].fingerprint == fp ==> |rows[i].raw.rawName| <= |rec.displayTitle|)
      && rec.avgPrice == RoundedMean(Mean(GroupPrices(rows, fp)))
  {
    KeysHaveMembers(rows);
    var k :| 0 <= k < |Keys(rows)| && Keys(rows)[k] == fp;
    var ms := Members(rows, fp);
    var title := LongestName(ms);
    var m :| 0 <= m < |ms| && ms[m].raw.rawName == title;
    var i :| 0 <= i < |rows| && rows[i] == ms[m];
    forall j | 0 <= j < |rows| && rows[j].fingerprint == fp ensures |rows[j].raw.rawName| <= |title| {
      MemberOfGroup(rows, j);
      var t :| 0 <= t < |ms| && ms[t] == rows[j];
    }
  }

  /** When every aggregated row has a price, as after the anomaly filter, every
      group has an average price. */
  lemma PricedRowsHaveAverages(rows: seq<EnrichedRow>, fp: string)
    requires forall i :: 0 <= i < |rows| ==> rows[i].pricing.priceFinal.Some?
    requires fp in Keys(rows)
    ensures Members(rows, fp) != []
    ensures Record(rows, fp).avgPrice.Some?
  {
    KeysHaveMembers(rows);
    var k :| 0 <= k < |Keys(rows)| && Keys(rows)[k] == fp;
    var i :| 0 <= i < |rows| && rows[i].fingerprint == fp;
    PriceInGroup(rows, i);
  }

  lemma {:induction false} RecordsForMembership(rows: seq<EnrichedRow>, ks: seq<string>, x: AggregateRecord)
    requires forall i :: 0 <= i < |ks| ==> Members(rows, ks[i]) != []
    requires x in RecordsFor(rows, ks)
    ensures exists k :: k in ks && Members(rows, k) != [] && x == Record(rows, k)
  {
    if x != Record(rows, ks[0]) {
      RecordsForMembership(rows, ks[1..], x);
      var k :| k in ks[1..] && Members(rows, k) != [] && x == Record(rows, k);
      assert k in ks;
    }
  }

  /** Every output record is the record of one of the feed's groups. */
  lemma OutputRecordIsGroupRecord(rows: seq<EnrichedRow>, x: AggregateRecord)
    requires x in AggregateProducts(rows)
    ensures exists k :: k in Keys(rows) && Members(rows, k) != [] && x == Record(rows, k)
  {
    KeysHaveMembers(rows);
    AggregateOnePerGroup(rows);
    assert x in multiset(GroupRecords(rows));
    RecordsForMembership(rows, Keys(rows), x);
  }

  /** When every aggregated row is priced at least lo, every output record has an
      average price, in whole cents, of at least lo rounded to the cent, and a count
      of at least one. */
  lemma AggregateAboveFloor(rows: seq<EnrichedRow>, lo: real)
    requires forall i :: 0 <= i < |rows| ==> rows[i].pricing.priceFinal.Some? && rows[i].pricing.priceFinal.value >= lo
    ensures forall x :: x in AggregateProducts(rows) ==>
      && x.occurrenceCount >= 1
      && x.avgPrice.Some? && IsCents(x.avgPrice.value) && x.avgPrice.value >= Round2(lo)
  {
    forall x | x in AggregateProducts(rows)
      ensures x.occurrenceCount >= 1 && x.avgPrice.Some? && IsCents(x.avgPrice.value) && x.avgPrice.value >= Round2(lo)
    {
      OutputRecordIsGroupRecord(rows, x);
      var k :| k in Keys(rows) && Members(rows, k) != [] && x == Record(rows, k);
      RecordOfGroup(rows, k);
      PricedRowsHaveAverages(rows, k);
      var ps := GroupPrices(rows, k);
      forall j | 0 <= j < |ps| ensures lo <= ps[j] {
        GroupPriceFromRow(rows, k, j);
      }
      MeanAtLeast(ps, lo);
      Round2Monotone(lo, Mean(ps).value);
    }
  }
}
