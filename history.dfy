/**
  The license splitter's history of successful decompositions: a table of
  records (the `records` list of `history.json`) with lookup, update, append,
  delete, newest-first listing and clearing, and passwords kept in base 64.
  The JSON file itself is not modelled: the table is the manager's state.
 */
module History {
  import opened Wrappers
  import opened Bytes
  import opened Base64
  import opened Text
  import opened Search
  import opened Sorting

  /** One entry of `records`; `id` and `timestamp` are the `strftime`/`isoformat` texts of its creation. */
  datatype Record = Record(id: string, filename: string, password: string, timestamp: string, licenseCount: nat)

  /** What `save_success_record` and `create_new_record` return. */
  datatype SaveStatus = Updated | Created | Failed

  /** The record a saved decomposition gets: the password is stored as its base 64 text. */
  function NewRecord(id: string, filename: string, password: seq<byte>, now: string, licenseCount: nat): (r: Record)
    ensures Decode(r.password) == Some(password)
  {
    DecodeEncode(password);
    Record(id, filename, Encode(password), now, licenseCount)
  }

  // ---------------------------------------------------------------------------
  // Lookups

  /** The position of the first record for this file name and encoded password. */
  function MatchIndex(records: seq<Record>, filename: string, encoded: string): (r: Option<nat>)
    ensures r.Some? ==> r.value < |records| && records[r.value].filename == filename && records[r.value].password == encoded
    ensures r.Some? ==> forall j :: 0 <= j < r.value ==> !(records[j].filename == filename && records[j].password == encoded)
    ensures r.None? ==> forall j :: 0 <= j < |records| ==> !(records[j].filename == filename && records[j].password == encoded)
  {
    FirstWhere(records, (x: Record) => x.filename == filename && x.password == encoded)
  }

  /** The position of the first record carrying `id`. */
  function IdIndex(records: seq<Record>, id: string): (r: Option<nat>)
    ensures r.Some? ==> r.value < |records| && records[r.value].id == id
                        && forall j :: 0 <= j < r.value ==> records[j].id != id
    ensures r.None? ==> forall j :: 0 <= j < |records| ==> records[j].id != id
  {
    FirstWhere(records, (x: Record) => x.id == id)
  }

  lemma IdIndexIs(records: seq<Record>, id: string, i: nat)
    requires i < |records| && records[i].id == id && forall j :: 0 <= j < i ==> records[j].id != id
    ensures IdIndex(records, id) == Some(i)
  {
    FirstWhereIs(records, (x: Record) => x.id == id, i);
  }

  /** `find_existing_record`: the first record with the same file name and encoded password. */
  function FindExisting(records: seq<Record>, filename: string, encoded: string): (r: Option<Record>)
    ensures r.Some? <==> exists j :: 0 <= j < |records| && records[j].filename == filename && records[j].password == encoded
    ensures r.Some? ==> r.value in records && r.value.filename == filename && r.value.password == encoded
  {
    match MatchIndex(records, filename, encoded)
    case None => None
    case Some(k) => Some(records[k])
  }

  /** `update_existing_record`: the first record with `id` gets the new time and count; nothing else changes. */
  function Touch(records: seq<Record>, id: string, now: string, licenseCount: nat): (r: seq<Record>)
    ensures |r| == |records|
  {
    match IdIndex(records, id)
    case None => records
    case Some(k) => records[k := records[k].(timestamp := now, licenseCount := licenseCount)]
  }

  /** Only the first record with the id changes, and only in its time and count. */
  lemma TouchOnlyFirst(records: seq<Record>, id: string, now: string, licenseCount: nat, j: nat)
    requires j < |records|
    ensures var r := Touch(records, id, now, licenseCount);
            && r[j].id == records[j].id && r[j].filename == records[j].filename && r[j].password == records[j].password
            && (r[j] != records[j] ==> IdIndex(records, id) == Some(j))
            && (IdIndex(records, id) == Some(j) ==> r[j].timestamp == now && r[j].licenseCount == licenseCount)
  {
  }

  /** A stored file name: the base name, or `<root>_<stamp><ext>` when a different file already has it. */
  function StoredName(name: string, clash: bool, stamp: string): (r: string) {
    if clash then
      var (root, ext) := SplitExt(name);
      root + "_" + stamp + ext
    else name
  }

  /** A renamed file keeps its extension and no longer collides with the stored one. */
  lemma StoredNameRenames(name: string, stamp: string)
    ensures var r := StoredName(name, true, stamp);
            r != name && EndsWith(r, SplitExt(name).1) && StartsWith(r, SplitExt(name).0)
  {
    var (root, ext) := SplitExt(name);
    var r := root + "_" + stamp + ext;
    assert |r| == |name| + 1 + |stamp|;
    assert r[|r| - |ext|..] == ext;
    assert r[..|root|] == root;
  }

  // ---------------------------------------------------------------------------
  // save_success_record, as written and as intended

  /**
    The table after `save_success_record` and its answer. A match is updated
    through its id; otherwise the file is stored (under `StoredName`) and a new
    record appended, unless copying failed.
   */
  function Saved(records: seq<Record>, path: string, password: seq<byte>, licenseCount: nat,
                 id: string, stamp: string, now: string, clash: bool, copied: bool): (seq<Record>, SaveStatus)
  {
    match FindExisting(records, Basename(path), Encode(password))
    case Some(existing) => (Touch(records, existing.id, now, licenseCount), Updated)
    case None =>
      if copied then (records + [NewRecord(id, StoredName(Basename(path), clash, stamp), password, now, licenseCount)], Created)
      else (records, Failed)
  }

  /** An existing file and password pair is reported "updated" and adds no record. */
  lemma SavedExisting(records: seq<Record>, path: string, password: seq<byte>, licenseCount: nat,
                      id: string, stamp: string, now: string, clash: bool, copied: bool, j: nat)
    requires j < |records| && records[j].filename == Basename(path) && records[j].password == Encode(password)
    ensures var (r, status) := Saved(records, path, password, licenseCount, id, stamp, now, clash, copied);
            status == Updated && |r| == |records|
  {
  }

  /**
    Ids are second-resolution times, so two records can share one. When the
    matching record is not the first with its id, the code as written
    refreshes that earlier record and leaves the matching one untouched.
   */
  lemma SavedTouchesIdTwin(records: seq<Record>, path: string, password: seq<byte>, licenseCount: nat,
                           id: string, stamp: string, now: string, clash: bool, copied: bool)
    requires |records| == 2 && records[0].id == records[1].id
    requires records[0].filename != Basename(path)
    requires records[1].filename == Basename(path) && records[1].password == Encode(password)
    requires records[0].timestamp != now
    ensures var (r, status) := Saved(records, path, password, licenseCount, id, stamp, now, clash, copied);
            status == Updated && r[1] == records[1] && r[0].timestamp == now
  {
    IdIndexIs(records, records[1].id, 0);
  }

  /** The intended update: the matching record itself gets the new time and count. */
  function SavedFixed(records: seq<Record>, path: string, password: seq<byte>, licenseCount: nat,
                      id: string, stamp: string, now: string, clash: bool, copied: bool): (seq<Record>, SaveStatus)
  {
    match MatchIndex(records, Basename(path), Encode(password))
    case Some(k) => (records[k := records[k].(timestamp := now, licenseCount := licenseCount)], Updated)
    case None =>
      if copied then (records + [NewRecord(id, StoredName(Basename(path), clash, stamp), password, now, licenseCount)], Created)
      else (records, Failed)
  }

  /** A new pair appends exactly one record, whose password decodes to the one given. */
  lemma SavedNew(records: seq<Record>, path: string, password: seq<byte>, licenseCount: nat,
                 id: string, stamp: string, now: string, clash: bool)
    requires forall j :: 0 <= j < |records| ==> !(records[j].filename == Basename(path) && records[j].password == Encode(password))
    ensures var (r, status) := SavedFixed(records, path, password, licenseCount, id, stamp, now, clash, true);
            && status == Created && |r| == |records| + 1 && r[..|records|] == records
            && r[|records|].licenseCount == licenseCount && Decode(r[|records|].password) == Some(password)
  {
    var (r, status) := SavedFixed(records, path, password, licenseCount, id, stamp, now, clash, true);
    assert r[..|records|] == records;
  }

  /** Under the intended update, the first matching record is the one refreshed, whatever the ids. */
  lemma SavedFixedTouchesMatch(records: seq<Record>, path: string, password: seq<byte>, licenseCount: nat,
                               id: string, stamp: string, now: string, clash: bool, copied: bool, k: nat)
    requires MatchIndex(records, Basename(path), Encode(password)) == Some(k)
    ensures var (r, status) := SavedFixed(records, path, password, licenseCount, id, stamp, now, clash, copied);
            && status == Updated && |r| == |records|
            && r[k].timestamp == now && r[k].licenseCount == licenseCount
            && r[k].id == records[k].id && r[k].filename == records[k].filename && r[k].password == records[k].password
            && forall j :: 0 <= j < |records| && j != k ==> r[j] == records[j]
  {
  }

  /** While ids are distinct, the code as written and the intended update agree. */
  lemma SavedAgreesOnDistinctIds(records: seq<Record>, path: string, password: seq<byte>, licenseCount: nat,
                                 id: string, stamp: string, now: string, clash: bool, copied: bool)
    requires forall a, b :: 0 <= a < b < |records| ==> records[a].id != records[b].id
    ensures Saved(records, path, password, licenseCount, id, stamp, now, clash, copied)
            == SavedFixed(records, path, password, licenseCount, id, stamp, now, clash, copied)
  {
    match MatchIndex(records, Basename(path), Encode(password))
    case None =>
    case Some(k) =>
      IdIndexIs(records, records[k].id, k);
  }

  // ---------------------------------------------------------------------------
  // Deleting, listing, decoding

  /** `[r for r in records if r['id'] != id]`. */
  function WithoutId(records: seq<Record>, id: string): (r: seq<Record>)
    ensures |r| <= |records|
    ensures forall x :: x in r <==> x in records && x.id != id
  {
    if |records| == 0 then []
    else
      var init := WithoutId(records[..|records| - 1], id);
      var last := records[|records| - 1];
      assert forall x :: x in records <==> x in records[..|records| - 1] || x == last;
      if last.id == id then init else init + [last]
  }

  /** The filter keeps the order of the records it keeps: it distributes over concatenation. */
  lemma {:induction false} WithoutIdAppend(a: seq<Record>, b: seq<Record>, id: string)
    ensures WithoutId(a + b, id) == WithoutId(a, id) + WithoutId(b, id)
    decreases |b|
  {
    if |b| == 0 {
      assert a + b == a;
    } else {
      assert (a + b)[..|a + b| - 1] == a + b[..|b| - 1];
      WithoutIdAppend(a, b[..|b| - 1], id);
    }
  }

  /** Filtering an id no record has changes nothing. */
  lemma {:induction false} WithoutAbsentId(records: seq<Record>, id: string)
    requires forall j :: 0 <= j < |records| ==> records[j].id != id
    ensures WithoutId(records, id) == records
    decreases |records|
  {
    if |records| > 0 {
      WithoutAbsentId(records[..|records| - 1], id);
      assert records[..|records| - 1] + [records[|records| - 1]] == records;
    }
  }

  /** `key=lambda x: x['timestamp']`, as the "not after" relation of the sort. */
  function ByTimestamp(): (Record, Record) -> bool {
    (a: Record, b: Record) => LexLe(a.timestamp, b.timestamp)
  }

  lemma ByTimestampTotal()
    ensures TotalPreorder(ByTimestamp())
  {
    forall a: Record, b: Record
      ensures ByTimestamp()(a, b) || ByTimestamp()(b, a)
    {
      LexLeTotal(a.timestamp, b.timestamp);
    }
    forall a: Record, b: Record, c: Record | ByTimestamp()(a, b) && ByTimestamp()(b, c)
      ensures ByTimestamp()(a, c)
    {
      LexLeTransitive(a.timestamp, b.timestamp, c.timestamp);
    }
  }

  /** `sorted(records, key=timestamp, reverse=True)`. */
  function NewestFirst(records: seq<Record>): (r: seq<Record>)
    ensures |r| == |records|
  {
    SortDesc(records, ByTimestamp())
  }

  /**
    `get_sorted_history`: the same records, timestamps non-increasing in
    Python's string order, and records with equal timestamps in table order.
   */
  lemma NewestFirstSpec(records: seq<Record>, k: Record)
    ensures multiset(NewestFirst(records)) == multiset(records)
    ensures var s := NewestFirst(records);
            forall i, j :: 0 <= i < j < |s| ==> LexLe(s[j].timestamp, s[i].timestamp)
    ensures Ties(NewestFirst(records), ByTimestamp(), k) == Ties(records, ByTimestamp(), k)
  {
    ByTimestampTotal();
    SortDescCorrect(records, ByTimestamp());
    SortDescStable(records, ByTimestamp(), k);
  }

  /** `decode_password`: the base 64 text back to the password's bytes, or `None` when it does not decode. */
  function DecodePassword(record: Record): (r: Option<seq<byte>>)
    ensures |record.password| % 4 != 0 ==> r.None?
  {
    DecodeRejectsLength(record.password);
    Decode(record.password)
  }

  /** A stored password decodes to the one that was saved. */
  lemma DecodeSavedPassword(id: string, filename: string, password: seq<byte>, now: string, licenseCount: nat)
    ensures DecodePassword(NewRecord(id, filename, password, now, licenseCount)) == Some(password)
  {
  }

  // ---------------------------------------------------------------------------
  // The manager

  class HistoryManager {
    /** The `records` list of the loaded history. */
    var records: seq<Record>

    /** A missing history file loads as an empty list. */
    constructor()
      ensures records == []
    {
      records := [];
    }

    /** `update_existing_record`: the loop stops at the first record with the id. */
    method UpdateExistingRecord(recordId: string, licenseCount: nat, now: string)
      modifies this
      ensures records == Touch(old(records), recordId, now, licenseCount)
    {
      var i := 0;
      while i < |records|
        invariant 0 <= i <= |records|
        invariant records == old(records)
        invariant forall j :: 0 <= j < i ==> records[j].id != recordId
      {
        if records[i].id == recordId {
          IdIndexIs(records, recordId, i);
          records := records[i := records[i].(timestamp := now, licenseCount := licenseCount)];
          return;
        }
        i := i + 1;
      }
    }

    /** `append_to_history`: exactly one record more, at the end. */
    method AppendToHistory(record: Record)
      modifies this
      ensures records == old(records) + [record]
    {
      records := records + [record];
    }

    /**
      `create_new_record`: store the file (renamed on a clash with a different
      file), then append its record; a failed copy appends nothing.
     */
    method CreateNewRecord(path: string, password: seq<byte>, licenseCount: nat,
                           id: string, stamp: string, now: string, clash: bool, copied: bool)
      returns (status: SaveStatus)
      modifies this
      ensures copied ==> status == Created
                         && records == old(records) + [NewRecord(id, StoredName(Basename(path), clash, stamp), password, now, licenseCount)]
      ensures !copied ==> status == Failed && records == old(records)
    {
      if !copied {
        return Failed;
      }
      var filename := StoredName(Basename(path), clash, stamp);
      AppendToHistory(NewRecord(id, filename, password, now, licenseCount));
      status := Created;
    }

    /**
      `save_success_record` with the intended update: the matching record
      itself is refreshed (`Saved` keeps the lookup through the id as written).
     */
    method SaveSuccessRecord(path: string, password: seq<byte>, licenseCount: nat,
                             id: string, stamp: string, now: string, clash: bool, copied: bool)
      returns (status: SaveStatus)
      modifies this
      ensures (records, status) == SavedFixed(old(records), path, password, licenseCount, id, stamp, now, clash, copied)
    {
      var hit := MatchIndex(records, Basename(path), Encode(password));
      if hit.Some? {
        var k := hit.value;
        records := records[k := records[k].(timestamp := now, licenseCount := licenseCount)];
        return Updated;
      }
      status := CreateNewRecord(path, password, licenseCount, id, stamp, now, clash, copied);
    }

    /** `clear_history`: the table is emptied (the stored files are removed, which is not modelled). */
    method ClearHistory() returns (ok: bool)
      modifies this
      ensures ok && records == []
    {
      records := [];
      ok := true;
    }

    /**
      `delete_record`: `False` and no change when no record has the id;
      otherwise every record with the id goes and the call answers `True`.
     */
    method DeleteRecord(recordId: string) returns (deleted: bool)
      modifies this
      ensures deleted <==> exists j :: 0 <= j < |old(records)| && old(records)[j].id == recordId
      ensures records == WithoutId(old(records), recordId)
    {
      var i := 0;
      while i < |records|
        invariant 0 <= i <= |records|
        invariant forall j :: 0 <= j < i ==> records[j].id != recordId
      {
        if records[i].id == recordId {
          records := WithoutId(records, recordId);
          return true;
        }
        i := i + 1;
      }
      WithoutAbsentId(records, recordId);
      deleted := false;
    }
  }
}
