/** Which entries the reader of ZIP archives finds, in any bytes. */
module ZipIndexes {
  import opened Bytes
  import opened Zip
  import opened ZipReads

  /** The last end-of-central-directory record that has its 22 bytes and starts in the last 65557. */
  ghost predicate IsEnd(buffer: Bytes, end: nat) {
    && |buffer| - 65557 <= end <= |buffer| - 22 && PartAt(buffer, end, END)
    && forall k: nat | end < k <= |buffer| - 22 :: !PartAt(buffer, k, END)
  }

  lemma EndsAre(buffer: Bytes, end: nat)
    ensures IsEnd(buffer, end) <==> LastEnd(buffer) == Some(end)
  {
    hide PartAt, ReadU32;
    forall k: nat | k <= |buffer| - 22 ensures EndAt(buffer, k) <==> PartAt(buffer, k, END) {
      SignaturesAre(buffer, k);
    }
    if IsEnd(buffer, end) { LastEndIs(buffer, end); }
  }

  ghost predicate IsOrdinary(name: Bytes) { name != [] && name[|name| - 1] != '/' as int }

  /** The last record of each ordinary name. */
  ghost predicate IsLastOf(es: seq<Entry>, name: Bytes, k: nat) {
    k < |es| && es[k].name == name && forall j | k < j < |es| :: es[j].name != name
  }

  ghost predicate Indexes(found: map<Bytes, Entry>, es: seq<Entry>) {
    && (forall name :: name in found <==> IsOrdinary(name) && exists k: nat :: IsLastOf(es, name, k))
    && forall name, k: nat | name in found && IsLastOf(es, name, k) :: found[name] == es[k]
  }

  /** Records one behind the other, each up to where the next one starts. */
  ghost predicate IsChain(buffer: Bytes, at: seq<nat>, es: seq<Entry>) {
    |at| == |es| + 1 && forall k | 0 <= k < |es| :: IsRecordAt(buffer, at[k], es[k], at[k + 1])
  }

  ghost predicate IsRecordAt(buffer: Bytes, at: nat, e: Entry, next: nat) {
    exists name, extra, comment :: IsRecordOf(buffer, at, e, next, name, extra, comment)
  }

  // ---- The loop ---------------------------------------------------------------------------------------

  ghost function Folded(found: map<Bytes, Entry>, es: seq<Entry>): map<Bytes, Entry> {
    if es == [] then found else Listed(Folded(found, es[..|es| - 1]), es[|es| - 1])
  }

  lemma {:induction false} FoldedIndexes(es: seq<Entry>)
    ensures Indexes(Folded(map[], es), es)
  {
    if es != [] {
      var last := |es| - 1;
      FoldedIndexes(es[..last]);
      OneMoreIndexed(Folded(map[], es[..last]), es);
    }
  }

  lemma OneMoreIndexed(found: map<Bytes, Entry>, es: seq<Entry>)
    requires es != [] && Indexes(found, es[..|es| - 1])
    ensures Indexes(Listed(found, es[|es| - 1]), es)
  {
    var last := |es| - 1;
    var before, more := es[..last], Listed(found, es[last]);
    assert IsEmptyOrDirectory(es[last].name) <==> !IsOrdinary(es[last].name);
    assert IsLastOf(es, es[last].name, last);
    forall name, k: nat | name != es[last].name ensures IsLastOf(es, name, k) <==> IsLastOf(before, name, k) {
      assert forall j | 0 <= j < last :: before[j] == es[j];
    }
    forall name ensures name in more <==> IsOrdinary(name) && exists k: nat :: IsLastOf(es, name, k) {
      if name != es[last].name {
        assert name in more <==> name in found;
        if k: nat :| IsLastOf(before, name, k) { assert IsLastOf(es, name, k); }
        if k: nat :| IsLastOf(es, name, k) { assert IsLastOf(before, name, k); }
      }
    }
    forall name, k: nat | name in more && IsLastOf(es, name, k) ensures more[name] == es[k] {
      if name != es[last].name { assert IsLastOf(before, name, k) && before[k] == es[k]; }
    }
  }

  lemma {:induction false} FoldedFirst(found: map<Bytes, Entry>, e: Entry, es: seq<Entry>)
    ensures Folded(Listed(found, e), es) == Folded(found, [e] + es)
    decreases |es|
  {
    var all := [e] + es;
    if es == [] {
      assert all[..0] == [];
    } else {
      FoldedFirst(found, e, es[..|es| - 1]);
      assert all[..|all| - 1] == [e] + es[..|es| - 1];
    }
  }

  lemma {:induction false} ScanIsChain(buffer: Bytes, offset: nat, count: nat, found: map<Bytes, Entry>)
      returns (at: seq<nat>, es: seq<Entry>)
    requires Scan(RecordReader(buffer), offset, count, found).Ok?
    ensures IsChain(buffer, at, es) && at[0] == offset && |es| == count
    ensures Scan(RecordReader(buffer), offset, count, found) == Ok(Folded(found, es))
    decreases count
  {
    hide IsRecordAt, Record, Listed, Folded;
    if count == 0 {
      at, es := [offset], [];
      assert Folded(found, []) == found by { NothingFolded(found); }
    } else {
      var (e, next) := Record(buffer, offset).value;
      var places, more := ScanIsChain(buffer, next, count - 1, Listed(found, e));
      at, es := [offset] + places, [e] + more;
      assert IsRecordAt(buffer, offset, e, next) by { RecordsAre(buffer, offset, e, next); ShowRecord(buffer, offset, e, next); }
      FoldedFirst(found, e, more);
    }
  }

  lemma ShowRecord(buffer: Bytes, offset: nat, e: Entry, next: nat)
    ensures IsRecordAt(buffer, offset, e, next) <==> Record(buffer, offset) == Ok((e, next))
  {
    hide IsRecordOf;
    RecordsAre(buffer, offset, e, next);
  }

  lemma NothingFolded(found: map<Bytes, Entry>)
    ensures Folded(found, []) == found
  {
  }

  lemma {:induction false} ChainIsScanned(buffer: Bytes, at: seq<nat>, es: seq<Entry>, found: map<Bytes, Entry>)
    requires IsChain(buffer, at, es)
    ensures Scan(RecordReader(buffer), at[0], |es|, found) == Ok(Folded(found, es))
    decreases |es|
  {
    hide IsRecordAt, Record, Listed, Folded;
    if es == [] {
      NothingFolded(found);
    } else {
      assert IsRecordAt(buffer, at[0], es[0], at[1]);
      ShowRecord(buffer, at[0], es[0], at[1]);
      ChainIsScanned(buffer, at[1..], es[1..], Listed(found, es[0]));
      FoldedFirst(found, es[0], es[1..]);
      assert [es[0]] + es[1..] == es;
    }
  }

  // ---- Whole archives ---------------------------------------------------------------------------------

  /** Behind the last end record: as many records as it says, from where it says on. */
  ghost predicate IsIndexOf(buffer: Bytes, end: nat, at: seq<nat>, es: seq<Entry>, found: map<Bytes, Entry>) {
    && IsEnd(buffer, end) && IsChain(buffer, at, es)
    && Holds16(buffer, end + 10, |es|) && Holds32(buffer, end + 16, at[0]) && Indexes(found, es)
  }

  lemma SameIndex(a: map<Bytes, Entry>, b: map<Bytes, Entry>, es: seq<Entry>)
    requires Indexes(a, es) && Indexes(b, es)
    ensures a == b
  {
    hide IsOrdinary, IsLastOf;
    forall name | name in a ensures name in b && a[name] == b[name] {
      var k :| IsLastOf(es, name, k);
    }
    assert a.Keys == b.Keys;
  }

  /** A buffer is read as an index exactly when it is one, for the last record of each ordinary name. */
  lemma IndexesAre(buffer: Bytes, found: map<Bytes, Entry>)
    ensures Entries(buffer) == Ok(found) <==> exists end: nat, at, es :: IsIndexOf(buffer, end, at, es, found)
  {
    hide IsEnd, Scan, Indexes, Holds16, Holds32, ReadU16, ReadU32, Folded, IsRecordAt;
    if Entries(buffer) == Ok(found) {
      var end := LastEnd(buffer).value;
      EndsAre(buffer, end);
      var at, es := ScanIsChain(buffer, ReadU32(buffer, end + 16), ReadU16(buffer, end + 10), map[]);
      FoldedIndexes(es);
      Sixteen(buffer, end + 10, |es|);
      ThirtyTwo(buffer, end + 16, at[0]);
      assert IsIndexOf(buffer, end, at, es, found);
    }
    forall end: nat, at, es | IsIndexOf(buffer, end, at, es, found) ensures Entries(buffer) == Ok(found) {
      EndsAre(buffer, end);
      LastEndFits(buffer, end);
      Sixteen(buffer, end + 10, |es|);
      ThirtyTwo(buffer, end + 16, at[0]);
      ChainIsScanned(buffer, at, es, map[]);
      FoldedIndexes(es);
      SameIndex(Folded(map[], es), found, es);
    }
  }

  lemma LastEndFits(buffer: Bytes, end: nat)
    requires LastEnd(buffer) == Some(end)
    ensures end + 22 <= |buffer|
  {
  }
}
