/** The reviewed autotune cache installer (`tools/install_autotune_cache.py`): gates, merge, history and the
    sorted rewrite of the destination. */
module AutotuneCache {
  import opened Wrappers
  import opened CacheOrder

  const RUNTIME_SCOPE := "runtime_exact_autotune"
  const CDNA_TARGETS := {"gfx90a", "gfx942", "gfx950"}

  /** A cache entry: the fields the installer itself reads, and the rest of the record. */
  datatype Entry = Entry(key: string, cacheScope: Option<string>, targetId: string, body: string)

  function ScopeOf(e: Entry): string { if e.cacheScope.Some? then e.cacheScope.value else RUNTIME_SCOPE }

  function LowerChar(c: char): char { if 'A' <= c <= 'Z' then (c as int + 32) as char else c }

  function Lower(s: string): string { seq(|s|, i requires 0 <= i < |s| => LowerChar(s[i])) }

  /** One row of a promotion ledger; `blockers` is `None` when it is not a list. */
  datatype LedgerRow = LedgerRow(blockers: Option<seq<string>>, performanceValidated: bool, varianceAvailable: bool,
                                 varianceReady: bool, targetAvailable: bool, targetReady: bool, targetEligible: bool,
                                 rest: string)

  /** A ledger entry with its key; the empty key stands for a missing or malformed one. */
  datatype LedgerEntry = LedgerEntry(autotuneKey: string, row: LedgerRow)

  datatype Error = ExistingCacheInvalid | SourceInvalid | SelectorReviewOnly(key: string) | LedgerRequired
    | LedgerMalformed | LedgerConflict(key: string) | MissingLedgerRow(key: string) | RowRejected(key: string)
    | GateNeedsLedger

  datatype Result<T> = Ok(value: T) | Err(error: Error)

  predicate TargetGateRequired(e: Entry, requireTarget: bool) { requireTarget || Lower(e.targetId) in CDNA_TARGETS }

  /** The check of a ledger row before its entry is installed. */
  predicate Clears(row: LedgerRow, e: Entry, requireVariance: bool, requireTarget: bool)
  {
    && row.blockers == Some([]) && row.performanceValidated
    && (requireVariance ==> row.varianceAvailable && row.varianceReady)
    && (TargetGateRequired(e, requireTarget) ==> row.targetAvailable && row.targetReady && row.targetEligible)
  }

  /** The same letters as `target`, in any ASCII case. */
  ghost predicate SpelledAs(s: string, target: string)
  {
    |s| == |target| && forall i :: 0 <= i < |s| ==>
      s[i] == target[i] || ('A' <= s[i] <= 'Z' && s[i] as int + 32 == target[i] as int)
  }

  lemma LowerIff(s: string, target: string)
    requires forall i :: 0 <= i < |target| ==> !('A' <= target[i] <= 'Z')
    ensures Lower(s) == target <==> SpelledAs(s, target)
  {
    assert forall i :: 0 <= i < |s| ==> Lower(s)[i] == LowerChar(s[i]);
    if SpelledAs(s, target) {
      assert forall i :: 0 <= i < |s| ==> LowerChar(s[i]) == target[i];
    }
  }

  /** What a row has to show: no blockers, a validated performance, a ready variance gate where one is required,
      and a ready target gate for the CDNA targets in any case and wherever one is required. */
  ghost predicate Promotes(row: LedgerRow, e: Entry, requireVariance: bool, requireTarget: bool)
  {
    && row.blockers == Some([]) && row.performanceValidated
    && (requireVariance ==> row.varianceAvailable && row.varianceReady)
    && ((requireTarget || SpelledAs(e.targetId, "gfx90a") || SpelledAs(e.targetId, "gfx942")
         || SpelledAs(e.targetId, "gfx950")) ==>
          row.targetAvailable && row.targetReady && row.targetEligible)
  }

  lemma ClearsIff(row: LedgerRow, e: Entry, requireVariance: bool, requireTarget: bool)
    ensures Clears(row, e, requireVariance, requireTarget) <==> Promotes(row, e, requireVariance, requireTarget)
  {
    LowerIff(e.targetId, "gfx90a");
    LowerIff(e.targetId, "gfx942");
    LowerIff(e.targetId, "gfx950");
  }

  // Ledgers.

  /** Keys are present and distinct. */
  ghost predicate WellFormed(ledger: seq<LedgerEntry>)
  {
    && (forall i :: 0 <= i < |ledger| ==> ledger[i].autotuneKey != "")
    && (forall i, j :: 0 <= i < j < |ledger| ==> ledger[i].autotuneKey != ledger[j].autotuneKey)
  }

  ghost predicate Lists(ledger: seq<LedgerEntry>, key: string, row: LedgerRow)
  {
    exists i :: 0 <= i < |ledger| && ledger[i] == LedgerEntry(key, row)
  }

  ghost predicate MapsTo(rows: map<string, LedgerRow>, key: string, row: LedgerRow)
  {
    key in rows && rows[key] == row
  }

  /** The map holds exactly the rows of the first `n` entries. */
  ghost predicate RowsOf(rows: map<string, LedgerRow>, ledger: seq<LedgerEntry>, n: nat)
    requires n <= |ledger|
  {
    forall key, row :: MapsTo(rows, key, row) <==> Lists(ledger[..n], key, row)
  }

  lemma ListsNext(ledger: seq<LedgerEntry>, n: nat, key: string, row: LedgerRow)
    requires n < |ledger|
    ensures Lists(ledger[..n + 1], key, row) <==> Lists(ledger[..n], key, row) || ledger[n] == LedgerEntry(key, row)
  {
    var prefix := ledger[..n + 1];
    if Lists(ledger[..n], key, row) {
      var i :| 0 <= i < n && ledger[..n][i] == LedgerEntry(key, row);
      assert prefix[i] == ledger[i];
    }
    if ledger[n] == LedgerEntry(key, row) {
      assert prefix[n] == ledger[n];
    }
    if Lists(prefix, key, row) {
      var i :| 0 <= i < n + 1 && prefix[i] == LedgerEntry(key, row);
      assert i < n ==> ledger[..n][i] == ledger[i];
    }
  }

  /** `read_promotion_ledger`, after parsing: duplicates and missing keys are refused. */
  method ReadPromotionLedger(ledger: seq<LedgerEntry>) returns (r: Result<map<string, LedgerRow>>)
    ensures r.Ok? <==> WellFormed(ledger)
    ensures r.Ok? ==> RowsOf(r.value, ledger, |ledger|)
  {
    var byKey: map<string, LedgerRow> := map[];
    for index := 0 to |ledger|
      invariant RowsOf(byKey, ledger, index)
      invariant forall i :: 0 <= i < index ==> ledger[i].autotuneKey != "" && ledger[i].autotuneKey in byKey
      invariant forall i, j :: 0 <= i < j < index ==> ledger[i].autotuneKey != ledger[j].autotuneKey
      invariant forall key :: key in byKey ==> exists i :: 0 <= i < index && ledger[i].autotuneKey == key
    {
      var entry := ledger[index];
      if entry.autotuneKey == "" || entry.autotuneKey in byKey {
        return Err(LedgerMalformed);
      }
      ghost var before := byKey;
      byKey := byKey[entry.autotuneKey := entry.row];
      forall key, row
        ensures MapsTo(byKey, key, row) <==> Lists(ledger[..index + 1], key, row)
      {
        ListsNext(ledger, index, key, row);
        assert MapsTo(before, key, row) <==> Lists(ledger[..index], key, row);
        assert key == entry.autotuneKey ==> !MapsTo(before, key, row);
      }
    }
    return Ok(byKey);
  }

  /** A row that some ledger lists for the key. */
  ghost predicate Listed(ledgers: seq<seq<LedgerEntry>>, n: nat, key: string, row: LedgerRow)
    requires n <= |ledgers|
  {
    exists l :: 0 <= l < n && Lists(ledgers[l], key, row)
  }

  /** All ledgers are well formed and agree on every key they share. */
  ghost predicate Consistent(ledgers: seq<seq<LedgerEntry>>, n: nat)
    requires n <= |ledgers|
  {
    && (forall l :: 0 <= l < n ==> WellFormed(ledgers[l]))
    && (forall key, row, row' :: Listed(ledgers, n, key, row) && Listed(ledgers, n, key, row') ==> row == row')
  }

  /** The map holds exactly the rows the first `n` ledgers list. */
  ghost predicate Combined(rows: map<string, LedgerRow>, ledgers: seq<seq<LedgerEntry>>, n: nat)
    requires n <= |ledgers|
  {
    forall key, row :: MapsTo(rows, key, row) <==> Listed(ledgers, n, key, row)
  }

  lemma CombinedAgrees(rows: map<string, LedgerRow>, ledgers: seq<seq<LedgerEntry>>, n: nat)
    requires n <= |ledgers| && Combined(rows, ledgers, n) && forall l :: 0 <= l < n ==> WellFormed(ledgers[l])
    ensures Consistent(ledgers, n)
  {
    forall key, row, row' | Listed(ledgers, n, key, row) && Listed(ledgers, n, key, row')
      ensures row == row'
    {
      assert MapsTo(rows, key, row) && MapsTo(rows, key, row');
    }
  }

  lemma ListedNext(ledgers: seq<seq<LedgerEntry>>, n: nat, key: string, row: LedgerRow)
    requires n < |ledgers|
    ensures Listed(ledgers, n + 1, key, row) <==> Listed(ledgers, n, key, row) || Lists(ledgers[n], key, row)
  {
  }

  /** Combine the ledgers, refusing two different rows for one key. */
  method CombineLedgers(ledgers: seq<seq<LedgerEntry>>) returns (r: Result<map<string, LedgerRow>>)
    ensures r.Ok? <==> Consistent(ledgers, |ledgers|)
    ensures r.Ok? ==> Combined(r.value, ledgers, |ledgers|)
  {
    var rows: map<string, LedgerRow> := map[];
    for l := 0 to |ledgers|
      invariant Consistent(ledgers, l) && Combined(rows, ledgers, l)
    {
      var read := ReadPromotionLedger(ledgers[l]);
      if read.Err? {
        return Err(read.error);
      }
      assert ledgers[l][..|ledgers[l]|] == ledgers[l];
      if key :| key in read.value && key in rows && rows[key] != read.value[key] {
        assert MapsTo(rows, key, rows[key]) && MapsTo(read.value, key, read.value[key]);
        assert Listed(ledgers, l, key, rows[key]) && Lists(ledgers[l], key, read.value[key]);
        assert Listed(ledgers, |ledgers|, key, rows[key]) && Listed(ledgers, |ledgers|, key, read.value[key]);
        return Err(LedgerConflict(key));
      }
      ghost var before := rows;
      rows := rows + read.value;
      forall key, row
        ensures MapsTo(rows, key, row) <==> Listed(ledgers, l + 1, key, row)
      {
        ListedNext(ledgers, l, key, row);
        assert MapsTo(before, key, row) <==> Listed(ledgers, l, key, row);
        assert MapsTo(read.value, key, row) <==> Lists(ledgers[l], key, row);
      }
      CombinedAgrees(rows, ledgers, l + 1);
    }
    return Ok(rows);
  }

  /** Some listed row promotes the entry. */
  ghost predicate Cleared(ledgers: seq<seq<LedgerEntry>>, e: Entry, requireVariance: bool, requireTarget: bool)
  {
    exists row :: Listed(ledgers, |ledgers|, e.key, row) && Promotes(row, e, requireVariance, requireTarget)
  }

  /** `validate_promotion_ledger_gate`: it passes exactly when the ledgers are consistent, every source entry
      has a row that promotes it, and a required variance gate has a ledger to read. */
  method ValidatePromotionLedgerGate(entries: seq<Entry>, ledgers: seq<seq<LedgerEntry>>, requireVariance: bool,
                                     requireTarget: bool)
      returns (r: Result<map<string, LedgerRow>>)
    ensures r.Ok? <==>
      && Consistent(ledgers, |ledgers|) && (requireVariance ==> |ledgers| > 0)
      && (forall i :: 0 <= i < |entries| ==> Cleared(ledgers, entries[i], requireVariance, requireTarget))
    ensures r.Ok? ==> Combined(r.value, ledgers, |ledgers|) && forall i :: 0 <= i < |entries| ==>
      entries[i].key in r.value && Promotes(r.value[entries[i].key], entries[i], requireVariance, requireTarget)
  {
    r := CombineLedgers(ledgers);
    if r.Err? {
      return;
    }
    if requireVariance && |ledgers| == 0 {
      return Err(GateNeedsLedger);
    }
    var rows := r.value;
    for index := 0 to |entries|
      invariant r == Ok(rows) && Combined(rows, ledgers, |ledgers|)
      invariant forall i :: 0 <= i < index ==>
        entries[i].key in rows && Promotes(rows[entries[i].key], entries[i], requireVariance, requireTarget)
      invariant forall i :: 0 <= i < index ==> Cleared(ledgers, entries[i], requireVariance, requireTarget)
    {
      var e := entries[index];
      if e.key !in rows {
        return Err(MissingLedgerRow(e.key));
      }
      assert MapsTo(rows, e.key, rows[e.key]);
      ClearsIff(rows[e.key], e, requireVariance, requireTarget);
      if !Clears(rows[e.key], e, requireVariance, requireTarget) {
        return Err(RowRejected(e.key));
      }
    }
  }

  // Merging.

  /** The dictionary after the first `n` entries have been written over `base`. */
  function Merge(base: map<string, Entry>, entries: seq<Entry>, n: nat): map<string, Entry>
    requires n <= |entries|
  {
    if n == 0 then base else Merge(base, entries, n - 1)[entries[n - 1].key := entries[n - 1]]
  }

  function MergeAll(base: map<string, Entry>, entries: seq<Entry>): map<string, Entry>
  {
    Merge(base, entries, |entries|)
  }

  /** A key no entry mentions keeps its old entry, or stays absent. */
  lemma {:induction false} UnmentionedKept(base: map<string, Entry>, entries: seq<Entry>, n: nat, key: string)
    requires n <= |entries| && forall i :: 0 <= i < n ==> entries[i].key != key
    ensures Lookup(Merge(base, entries, n), key) == Lookup(base, key)
  {
    if n > 0 {
      UnmentionedKept(base, entries, n - 1, key);
    }
  }

  /** The last entry for a key wins. */
  lemma {:induction false} LastWins(base: map<string, Entry>, entries: seq<Entry>, n: nat, i: nat)
    requires i < n <= |entries| && forall j :: i < j < n ==> entries[j].key != entries[i].key
    ensures Lookup(Merge(base, entries, n), entries[i].key) == Some(entries[i])
  {
    if i < n - 1 {
      LastWins(base, entries, n - 1, i);
    }
  }

  lemma {:induction false} MergePrefix(base: map<string, Entry>, a: seq<Entry>, b: seq<Entry>, n: nat)
    requires n <= |a|
    ensures Merge(base, a + b, n) == Merge(base, a, n)
  {
    if n > 0 {
      MergePrefix(base, a, b, n - 1);
    }
  }

  /** Installing `a` and then `b` is installing both at once. */
  lemma {:induction false} MergeAppend(base: map<string, Entry>, a: seq<Entry>, b: seq<Entry>, n: nat)
    requires n <= |b|
    ensures Merge(base, a + b, |a| + n) == Merge(MergeAll(base, a), b, n)
  {
    if n == 0 {
      MergePrefix(base, a, b, |a|);
    } else {
      MergeAppend(base, a, b, n - 1);
    }
  }

  /** Any two bases give the same entry for a key that some entry mentions. */
  lemma {:induction false} MergeForgets(base: map<string, Entry>, base': map<string, Entry>, entries: seq<Entry>, n: nat,
                                        i: nat)
    requires i < n <= |entries|
    ensures var key := entries[i].key;
      && key in Merge(base, entries, n) && key in Merge(base', entries, n)
      && Merge(base, entries, n)[key] == Merge(base', entries, n)[key]
  {
    if i < n - 1 {
      MergeForgets(base, base', entries, n - 1, i);
    }
  }

  /** Repeating an install changes nothing. */
  lemma MergeIdempotent(base: map<string, Entry>, entries: seq<Entry>)
    ensures MergeAll(MergeAll(base, entries), entries) == MergeAll(base, entries)
  {
    var once := MergeAll(base, entries);
    var twice := MergeAll(once, entries);
    forall key
      ensures key in once <==> key in twice
      ensures key in once ==> once[key] == twice[key]
    {
      if i :| 0 <= i < |entries| && entries[i].key == key {
        MergeForgets(base, once, entries, |entries|, i);
      } else {
        UnmentionedKept(once, entries, |entries|, key);
      }
    }
  }

  /** Every merged entry came from the base or from the entries. */
  lemma {:induction false} MergeOrigins(base: map<string, Entry>, entries: seq<Entry>, n: nat)
    requires n <= |entries| && forall key :: key in base ==> base[key].key == key
    ensures forall key :: key in Merge(base, entries, n) ==> Merge(base, entries, n)[key].key == key
    ensures forall key :: key in Merge(base, entries, n) ==>
      (key in base && Merge(base, entries, n)[key] == base[key]) || Merge(base, entries, n)[key] in entries
  {
    if n > 0 {
      MergeOrigins(base, entries, n - 1);
    }
  }

  function Keys(entries: seq<Entry>): (keys: seq<string>)
    ensures |keys| == |entries| && forall i :: 0 <= i < |entries| ==> keys[i] == entries[i].key
  {
    seq(|entries|, i requires 0 <= i < |entries| => entries[i].key)
  }

  /** The file lists exactly the entries of the map, in strictly ascending key order. */
  ghost predicate Renders(entries: seq<Entry>, m: map<string, Entry>)
  {
    && Sorted(Keys(entries))
    && (forall i :: 0 <= i < |entries| ==> entries[i].key in m && m[entries[i].key] == entries[i])
    && (forall key :: key in m ==> key in Keys(entries))
  }

  /** A map has one rendering, so equal dictionaries mean equal files. */
  lemma RenderingUnique(xs: seq<Entry>, ys: seq<Entry>, m: map<string, Entry>)
    requires Renders(xs, m) && Renders(ys, m)
    ensures xs == ys
  {
    forall key
      ensures key in Keys(xs) <==> key in Keys(ys)
    {
      assert key in Keys(xs) ==> key in m;
      assert key in Keys(ys) ==> key in m;
    }
    SortedLength(Keys(xs), m.Keys);
    SortedLength(Keys(ys), m.Keys);
    SortedUnique(Keys(xs), Keys(ys));
    forall i | 0 <= i < |xs|
      ensures xs[i] == ys[i]
    {
      assert Keys(xs)[i] == Keys(ys)[i];
    }
  }

  /** A prefix of a rendering agrees with the map on the keys it holds, and holds the keys of its entries. */
  lemma {:induction false} RenderedPrefix(entries: seq<Entry>, m: map<string, Entry>, n: nat)
    requires n <= |entries| && Renders(entries, m)
    ensures forall key :: key in Merge(map[], entries, n) ==> key in m && Merge(map[], entries, n)[key] == m[key]
    ensures forall i :: 0 <= i < n ==> entries[i].key in Merge(map[], entries, n)
  {
    if n > 0 {
      RenderedPrefix(entries, m, n - 1);
    }
  }

  /** Reading a rendering back gives the map. */
  lemma RenderingReadsBack(entries: seq<Entry>, m: map<string, Entry>)
    requires Renders(entries, m)
    ensures Merge(map[], entries, |entries|) == m
  {
    RenderedPrefix(entries, m, |entries|);
    forall key | key in m
      ensures key in Merge(map[], entries, |entries|)
    {
      var i :| 0 <= i < |entries| && Keys(entries)[i] == key;
      assert entries[i].key == key;
    }
  }

  /** Two installs in a row leave the very file that one install of both sources would. */
  lemma InstallsCompose(base: map<string, Entry>, a: seq<Entry>, b: seq<Entry>, first: seq<Entry>, second: seq<Entry>,
                        both: seq<Entry>)
    requires Renders(first, MergeAll(base, a)) && Renders(second, MergeAll(MergeAll(map[], first), b))
    requires Renders(both, MergeAll(base, a + b))
    ensures second == both
  {
    RenderingReadsBack(first, MergeAll(base, a));
    MergeAppend(base, a, b, |b|);
    RenderingUnique(second, both, MergeAll(base, a + b));
  }

  /** Repeating an install leaves the file as it is. */
  lemma ReinstallKeepsFile(base: map<string, Entry>, entries: seq<Entry>, first: seq<Entry>, again: seq<Entry>)
    requires Renders(first, MergeAll(base, entries)) && Renders(again, MergeAll(MergeAll(map[], first), entries))
    ensures again == first
  {
    RenderingReadsBack(first, MergeAll(base, entries));
    MergeIdempotent(base, entries);
    RenderingUnique(again, first, MergeAll(base, entries));
  }

  // History.

  /** One line of the replacement history; `oldEntry` is `None` for an addition. */
  datatype Change = Change(key: string, oldEntry: Option<Entry>, newEntry: Entry)

  function Lookup(m: map<string, Entry>, key: string): Option<Entry> { if key in m then Some(m[key]) else None }

  /** The history of the first `n` entries: one change for each entry that differs from what it replaces. */
  function History(base: map<string, Entry>, entries: seq<Entry>, n: nat): seq<Change>
    requires n <= |entries|
  {
    if n == 0 then []
    else
      var e := entries[n - 1];
      var prior := Lookup(Merge(base, entries, n - 1), e.key);
      History(base, entries, n - 1) + (if prior != Some(e) then [Change(e.key, prior, e)] else [])
  }

  /** The history is complete: a key it does not name still has the entry it had. */
  lemma {:induction false} HistoryComplete(base: map<string, Entry>, entries: seq<Entry>, n: nat, key: string)
    requires n <= |entries| && forall i :: 0 <= i < |History(base, entries, n)| ==> History(base, entries, n)[i].key != key
    ensures Lookup(Merge(base, entries, n), key) == Lookup(base, key)
  {
    if n > 0 {
      var before, now := History(base, entries, n - 1), History(base, entries, n);
      assert forall i :: 0 <= i < |before| ==> now[i] == before[i];
      HistoryComplete(base, entries, n - 1, key);
      assert |now| > |before| ==> now[|before|].key == entries[n - 1].key;
    }
  }

  /** Replaying the history alone gives the merged cache. */
  function Replay(base: map<string, Entry>, history: seq<Change>, n: nat): map<string, Entry>
    requires n <= |history|
  {
    if n == 0 then base else Replay(base, history, n - 1)[history[n - 1].key := history[n - 1].newEntry]
  }

  lemma {:induction false} ReplayPrefix(base: map<string, Entry>, h: seq<Change>, more: seq<Change>, n: nat)
    requires n <= |h|
    ensures Replay(base, h + more, n) == Replay(base, h, n)
  {
    if n > 0 {
      ReplayPrefix(base, h, more, n - 1);
    }
  }

  lemma {:induction false} HistoryReplays(base: map<string, Entry>, entries: seq<Entry>, n: nat)
    requires n <= |entries|
    ensures Replay(base, History(base, entries, n), |History(base, entries, n)|) == Merge(base, entries, n)
  {
    if n > 0 {
      HistoryReplays(base, entries, n - 1);
      var h, e := History(base, entries, n - 1), entries[n - 1];
      var prior := Lookup(Merge(base, entries, n - 1), e.key);
      if prior == Some(e) {
        assert Merge(base, entries, n) == Merge(base, entries, n - 1);
        assert History(base, entries, n) == h;
      } else {
        ReplayPrefix(base, h, [Change(e.key, prior, e)], |h|);
      }
    }
  }

  // The installer.

  datatype Options = Options(dryRun: bool, replaceExisting: bool, requireVariance: bool, requireTarget: bool,
                             allowSelectorReview: bool)

  /** One run of the tool: its sources, its ledgers and its options. */
  datatype Request = Request(sources: seq<seq<Entry>>, ledgers: seq<seq<LedgerEntry>>, options: Options)
  {
    function Entries(): seq<Entry> { Concat(sources, |sources|) }
  }

  datatype Summary = Summary(sourceEntries: nat, existingEntries: nat, installedEntries: nat, addedEntries: nat,
                             replacedEntries: nat, history: seq<Change>)

  /** All source entries in order. */
  function Concat(sources: seq<seq<Entry>>, n: nat): seq<Entry>
    requires n <= |sources|
  {
    if n == 0 then [] else Concat(sources, n - 1) + sources[n - 1]
  }

  method MergeInto(base: map<string, Entry>, entries: seq<Entry>)
      returns (merged: map<string, Entry>, history: seq<Change>)
    ensures merged == MergeAll(base, entries) && history == History(base, entries, |entries|)
  {
    merged, history := base, [];
    for i := 0 to |entries|
      invariant merged == Merge(base, entries, i) && history == History(base, entries, i)
    {
      var entry := entries[i];
      var oldEntry := if entry.key in merged then Some(merged[entry.key]) else None;
      if oldEntry != Some(entry) {
        history := history + [Change(entry.key, oldEntry, entry)];
      }
      merged := merged[entry.key := entry];
    }
  }

  method RenderSorted(m: map<string, Entry>) returns (ordered: seq<Entry>)
    requires forall key :: key in m ==> m[key].key == key
    ensures Renders(ordered, m) && |ordered| == |m|
  {
    var keys := SortedKeys(m.Keys);
    ordered := [];
    for i := 0 to |keys|
      invariant |ordered| == i && forall j :: 0 <= j < i ==> keys[j] in m && ordered[j] == m[keys[j]]
    {
      assert keys[i] in keys;
      ordered := ordered + [m[keys[i]]];
    }
    assert Keys(ordered) == keys;
    SortedLength(keys, m.Keys);
  }

  predicate AllAccepted(accepts: Entry -> bool, entries: seq<Entry>)
  {
    forall i :: 0 <= i < |entries| ==> accepts(entries[i])
  }

  predicate AllAcceptedSources(accepts: Entry -> bool, sources: seq<seq<Entry>>)
  {
    forall i :: 0 <= i < |sources| ==> AllAccepted(accepts, sources[i])
  }

  /** Runtime-exact entries only, unless the request waives that. */
  predicate InScope(entries: seq<Entry>, o: Options)
  {
    o.allowSelectorReview || forall i :: 0 <= i < |entries| ==> ScopeOf(entries[i]) == RUNTIME_SCOPE
  }

  /** The ledgers clear every entry; without ledgers only an undemanding dry run passes. */
  ghost predicate LedgersPass(entries: seq<Entry>, ledgers: seq<seq<LedgerEntry>>, o: Options)
  {
    if |ledgers| > 0 then
      Consistent(ledgers, |ledgers|)
      && forall i :: 0 <= i < |entries| ==> Cleared(ledgers, entries[i], true, o.requireTarget)
    else o.dryRun && !o.requireVariance && !o.requireTarget
  }

  /** Exactly when the sources of a request get through. */
  ghost predicate GatesPass(accepts: Entry -> bool, q: Request)
  {
    && AllAcceptedSources(accepts, q.sources)
    && InScope(q.Entries(), q.options) && LedgersPass(q.Entries(), q.ledgers, q.options)
  }

  /** The entries and the dictionary an install starts from. */
  function Existing(file: Option<seq<Entry>>, o: Options): seq<Entry>
  {
    if o.replaceExisting || file == None then [] else file.value
  }

  function Base(file: Option<seq<Entry>>, o: Options): map<string, Entry> { MergeAll(map[], Existing(file, o)) }

  /** Exactly when a request is carried out. */
  ghost predicate Succeeds(accepts: Entry -> bool, file: Option<seq<Entry>>, q: Request)
  {
    GatesPass(accepts, q) && AllAccepted(accepts, Existing(file, q.options))
  }

  /** The destination file before and after one request. */
  ghost predicate Step(accepts: Entry -> bool, before: Option<seq<Entry>>, q: Request, after: Option<seq<Entry>>)
  {
    if Succeeds(accepts, before, q) && !q.options.dryRun then
      after.Some? && Renders(after.value, MergeAll(Base(before, q.options), q.Entries()))
    else after == before
  }

  /** The entry came from this request's sources, was accepted, was runtime-exact unless the request waived
      that, and one of the request's own ledgers lists an unblocked, validated, variance-ready row for it. */
  ghost predicate InstalledBy(accepts: Entry -> bool, q: Request, e: Entry)
  {
    && !q.options.dryRun && e in q.Entries() && accepts(e)
    && (!q.options.allowSelectorReview ==> ScopeOf(e) == RUNTIME_SCOPE)
    && Cleared(q.ledgers, e, true, q.options.requireTarget)
  }

  /** Every entry of the file was installed by some request of the log. */
  ghost predicate AllInstalled(accepts: Entry -> bool, log: seq<Request>, file: Option<seq<Entry>>)
  {
    file.Some? ==> forall e :: e in file.value ==> exists i :: 0 <= i < |log| && InstalledBy(accepts, log[i], e)
  }

  lemma {:induction false} ConcatOrigin(sources: seq<seq<Entry>>, n: nat, e: Entry)
    requires n <= |sources| && e in Concat(sources, n)
    ensures exists s :: 0 <= s < n && e in sources[s]
  {
    if e in Concat(sources, n - 1) {
      ConcatOrigin(sources, n - 1, e);
    }
  }

  /** A request that gets through installs only entries that were reviewed and cleared. */
  lemma PassedAreInstalled(accepts: Entry -> bool, q: Request, e: Entry)
    requires GatesPass(accepts, q) && !q.options.dryRun && e in q.Entries()
    ensures InstalledBy(accepts, q, e)
  {
    ConcatOrigin(q.sources, |q.sources|, e);
    var s :| 0 <= s < |q.sources| && e in q.sources[s];
    var j :| 0 <= j < |q.sources[s]| && q.sources[s][j] == e;
    assert AllAccepted(accepts, q.sources[s]);
    var i :| 0 <= i < |q.Entries()| && q.Entries()[i] == e;
  }

  /** One more request keeps every entry traced to the request that installed it. */
  lemma StepKeepsReview(accepts: Entry -> bool, log: seq<Request>, before: Option<seq<Entry>>, q: Request,
                        after: Option<seq<Entry>>)
    requires AllInstalled(accepts, log, before) && Step(accepts, before, q, after)
    ensures AllInstalled(accepts, log + [q], after)
  {
    if after.Some? {
      forall e | e in after.value
        ensures exists i :: 0 <= i < |log + [q]| && InstalledBy(accepts, (log + [q])[i], e)
      {
        if before.Some? && e in before.value {
          var i :| 0 <= i < |log| && InstalledBy(accepts, log[i], e);
          assert (log + [q])[i] == log[i];
        } else {
          StoredOrigin(before, q, after.value, e);
          PassedAreInstalled(accepts, q, e);
          assert (log + [q])[|log|] == q;
        }
      }
    }
  }

  lemma StoredOrigin(before: Option<seq<Entry>>, q: Request, after: seq<Entry>, e: Entry)
    requires Renders(after, MergeAll(Base(before, q.options), q.Entries())) && e in after
    ensures e in q.Entries() || (before.Some? && e in before.value)
  {
    var existing := Existing(before, q.options);
    MergeOrigins(map[], existing, |existing|);
    MergeOrigins(Base(before, q.options), q.Entries(), |q.Entries()|);
    var i :| 0 <= i < |after| && after[i] == e;
  }

  /** Safety of whole runs: whatever requests are made of an initially missing file, in whatever order and
      with whatever options, each entry it ever holds was installed by a request made so far. */
  lemma {:induction false} RunIsReviewed(accepts: Entry -> bool, log: seq<Request>, files: seq<Option<seq<Entry>>>,
                                         n: nat)
    requires n <= |log| < |files| && files[0] == None
    requires forall i :: 0 <= i < |log| ==> Step(accepts, files[i], log[i], files[i + 1])
    ensures AllInstalled(accepts, log[..n], files[n])
  {
    if n > 0 {
      RunIsReviewed(accepts, log, files, n - 1);
      assert log[..n] == log[..n - 1] + [log[n - 1]];
      assert Step(accepts, files[n - 1], log[n - 1], files[n - 1 + 1]);
      StepKeepsReview(accepts, log[..n - 1], files[n - 1], log[n - 1], files[n]);
    }
  }

  /** What any run leaves, field by field: accepted entries, each with a scope that is absent or runtime-exact
      unless the request that installed it waived that, and with an unblocked, validated, variance-ready row in
      the ledgers of that request, which also has a ready target gate where one is due. */
  lemma RunIsRuntimeExact(accepts: Entry -> bool, log: seq<Request>, file: Option<seq<Entry>>, e: Entry)
      returns (i: nat, row: LedgerRow)
    requires AllInstalled(accepts, log, file) && file.Some? && e in file.value
    ensures i < |log| && e in log[i].Entries() && accepts(e) && !log[i].options.dryRun
    ensures log[i].options.allowSelectorReview || e.cacheScope == None || e.cacheScope == Some("runtime_exact_autotune")
    ensures Listed(log[i].ledgers, |log[i].ledgers|, e.key, row)
    ensures row.blockers == Some([]) && row.performanceValidated && row.varianceAvailable && row.varianceReady
    ensures (log[i].options.requireTarget || SpelledAs(e.targetId, "gfx90a") || SpelledAs(e.targetId, "gfx942")
             || SpelledAs(e.targetId, "gfx950")) ==> row.targetAvailable && row.targetReady && row.targetEligible
  {
    i :| 0 <= i < |log| && InstalledBy(accepts, log[i], e);
    var q := log[i];
    row :| Listed(q.ledgers, |q.ledgers|, e.key, row) && Promotes(row, e, true, q.options.requireTarget);
  }

  /** Exactly when a request is carried out, in terms of its entries, its ledgers and its options: every entry
      is accepted, has a scope that may be installed and a row that promotes it, the ledgers agree, and the file
      built on, if any, is valid.  Without ledgers only a dry run that asks for no gate passes. */
  lemma SucceedsIff(accepts: Entry -> bool, file: Option<seq<Entry>>, q: Request)
    ensures Succeeds(accepts, file, q) <==>
      && (forall s, i :: 0 <= s < |q.sources| && 0 <= i < |q.sources[s]| ==> accepts(q.sources[s][i]))
      && (q.options.allowSelectorReview || forall e :: e in q.Entries() ==>
            e.cacheScope == None || e.cacheScope == Some("runtime_exact_autotune"))
      && (if |q.ledgers| == 0 then q.options.dryRun && !q.options.requireVariance && !q.options.requireTarget
          else
            && Consistent(q.ledgers, |q.ledgers|)
            && forall e :: e in q.Entries() ==>
                 exists row ::
                   Listed(q.ledgers, |q.ledgers|, e.key, row) && Promotes(row, e, true, q.options.requireTarget))
      && (q.options.replaceExisting || file == None || forall e :: e in file.value ==> accepts(e))
  {
    var entries, gate := q.Entries(), q.options.requireTarget;
    assert forall i :: 0 <= i < |entries| ==> entries[i] in entries;
    assert forall e :: e in entries ==> (Cleared(q.ledgers, e, true, gate) <==>
      exists row :: Listed(q.ledgers, |q.ledgers|, e.key, row) && Promotes(row, e, true, gate));
    assert InScope(entries, q.options) <==> q.options.allowSelectorReview || forall e :: e in entries ==>
      e.cacheScope == None || e.cacheScope == Some("runtime_exact_autotune");
  }

  // What the file holds after an install, entry by entry.

  ghost predicate Mentions(entries: seq<Entry>, n: nat, key: string)
    requires n <= |entries|
  {
    exists i :: 0 <= i < n && entries[i].key == key
  }

  /** `e` is the last of the first `n` entries with its key. */
  ghost predicate LastIn(entries: seq<Entry>, n: nat, e: Entry)
    requires n <= |entries|
  {
    exists i :: 0 <= i < n && entries[i] == e && forall j :: i < j < n ==> entries[j].key != e.key
  }

  lemma {:induction false} HeldAfter(base: map<string, Entry>, entries: seq<Entry>, n: nat, e: Entry)
    requires n <= |entries|
    ensures Lookup(Merge(base, entries, n), e.key) == Some(e) <==>
      LastIn(entries, n, e) || (!Mentions(entries, n, e.key) && Lookup(base, e.key) == Some(e))
  {
    if n > 0 {
      HeldAfter(base, entries, n - 1, e);
      if entries[n - 1].key == e.key {
        assert Mentions(entries, n, e.key);
        assert LastIn(entries, n, e) <==> entries[n - 1] == e;
      } else {
        assert Mentions(entries, n, e.key) <==> Mentions(entries, n - 1, e.key);
        assert LastIn(entries, n, e) <==> LastIn(entries, n - 1, e);
      }
    }
  }

  /** `e` comes from the last of the first `n` sources that mentions its key, and is the last one there. */
  ghost predicate LastOf(sources: seq<seq<Entry>>, n: nat, e: Entry)
    requires n <= |sources|
  {
    exists s :: 0 <= s < n && LastIn(sources[s], |sources[s]|, e)
      && forall t :: s < t < n ==> !Mentions(sources[t], |sources[t]|, e.key)
  }

  ghost predicate NoneOf(sources: seq<seq<Entry>>, n: nat, key: string)
    requires n <= |sources|
  {
    forall s :: 0 <= s < n ==> !Mentions(sources[s], |sources[s]|, key)
  }

  lemma NextSource(sources: seq<seq<Entry>>, n: nat, e: Entry)
    requires n < |sources|
    ensures var last := sources[n];
      && (LastOf(sources, n + 1, e) <==>
            LastIn(last, |last|, e) || (!Mentions(last, |last|, e.key) && LastOf(sources, n, e)))
      && (NoneOf(sources, n + 1, e.key) <==> !Mentions(last, |last|, e.key) && NoneOf(sources, n, e.key))
  {
  }

  lemma {:induction false} HeldAfterSources(base: map<string, Entry>, sources: seq<seq<Entry>>, n: nat, e: Entry)
    requires n <= |sources|
    ensures Lookup(MergeAll(base, Concat(sources, n)), e.key) == Some(e) <==>
      LastOf(sources, n, e) || (NoneOf(sources, n, e.key) && Lookup(base, e.key) == Some(e))
  {
    if n > 0 {
      HeldAfterSources(base, sources, n - 1, e);
      var before, last := Concat(sources, n - 1), sources[n - 1];
      MergeAppend(base, before, last, |last|);
      HeldAfter(MergeAll(base, before), last, |last|, e);
      NextSource(sources, n - 1, e);
    }
  }

  lemma RenderedIff(entries: seq<Entry>, m: map<string, Entry>, e: Entry)
    requires Renders(entries, m)
    ensures e in entries <==> Lookup(m, e.key) == Some(e)
  {
    if Lookup(m, e.key) == Some(e) {
      var i :| 0 <= i < |entries| && Keys(entries)[i] == e.key;
      assert entries[i] == e;
    }
  }

  /** A carried-out install leaves exactly the last source entry for each key, and for keys no source mentions
      the last old entry, unless the old ones are to be replaced. */
  lemma StoredExactly(accepts: Entry -> bool, before: Option<seq<Entry>>, q: Request, after: Option<seq<Entry>>, e: Entry)
    requires Succeeds(accepts, before, q) && !q.options.dryRun && Step(accepts, before, q, after)
    ensures after.Some? && Sorted(Keys(after.value))
    ensures e in after.value <==>
      || LastOf(q.sources, |q.sources|, e)
      || (NoneOf(q.sources, |q.sources|, e.key)
          && !q.options.replaceExisting && before.Some? && LastIn(before.value, |before.value|, e))
  {
    var existing := Existing(before, q.options);
    HeldAfter(map[], existing, |existing|, e);
    HeldAfterSources(Base(before, q.options), q.sources, |q.sources|, e);
    RenderedIff(after.value, MergeAll(Base(before, q.options), q.Entries()), e);
  }

  /** An entry an install adds came from its sources, was accepted, has an installable scope and a row of the
      install's own ledgers that promotes it. */
  lemma NewEntriesPromoted(accepts: Entry -> bool, before: Option<seq<Entry>>, q: Request, after: Option<seq<Entry>>,
                           e: Entry) returns (row: LedgerRow)
    requires Step(accepts, before, q, after) && after.Some? && e in after.value
    requires before == None || e !in before.value
    ensures e in q.Entries() && accepts(e) && !q.options.dryRun
    ensures q.options.allowSelectorReview || e.cacheScope == None || e.cacheScope == Some("runtime_exact_autotune")
    ensures Listed(q.ledgers, |q.ledgers|, e.key, row) && Promotes(row, e, true, q.options.requireTarget)
  {
    StoredOrigin(before, q, after.value, e);
    PassedAreInstalled(accepts, q, e);
    row :| Listed(q.ledgers, |q.ledgers|, e.key, row) && Promotes(row, e, true, q.options.requireTarget);
  }

  /** Old keys whose merged entry the old file does not list. */
  function Replaced(existing: seq<Entry>, base: map<string, Entry>, merged: map<string, Entry>): set<string>
  {
    set key | key in base && key in merged && merged[key] !in existing
  }

  /** Merge, history and sorted rendering, with the counts of the report. */
  method Rewrite(existing: seq<Entry>, entries: seq<Entry>) returns (ordered: seq<Entry>, summary: Summary)
    ensures Renders(ordered, MergeAll(MergeAll(map[], existing), entries))
    ensures SummaryOf(summary, existing, entries)
  {
    var base, _ := MergeInto(map[], existing);
    MergeOrigins(map[], existing, |existing|);
    var merged, history := MergeInto(base, entries);
    MergeOrigins(base, entries, |entries|);
    MergeKeepsKeys(base, entries, |entries|);
    ordered := RenderSorted(merged);
    KeyGrowth(base, merged);
    summary := Summary(|entries|, |existing|, |ordered|, |merged.Keys - base.Keys|, |Replaced(existing, base, merged)|,
                       history);
  }

  lemma KeyGrowth(base: map<string, Entry>, merged: map<string, Entry>)
    requires base.Keys <= merged.Keys
    ensures |merged.Keys - base.Keys| == |merged| - |base|
  {
    assert merged.Keys == (merged.Keys - base.Keys) + base.Keys;
    assert |merged.Keys| == |merged| && |base.Keys| == |base|;
  }

  /** Read every source; one invalid entry refuses all. */
  method ReadSources(accepts: Entry -> bool, sources: seq<seq<Entry>>) returns (r: Result<seq<Entry>>)
    ensures r.Ok? <==> AllAcceptedSources(accepts, sources)
    ensures r.Ok? ==> r.value == Concat(sources, |sources|)
  {
    var reviewed: seq<Entry> := [];
    for s := 0 to |sources|
      invariant reviewed == Concat(sources, s)
      invariant forall i :: 0 <= i < s ==> AllAccepted(accepts, sources[i])
    {
      if !AllAccepted(accepts, sources[s]) {
        return Err(SourceInvalid);
      }
      reviewed := reviewed + sources[s];
    }
    r := Ok(reviewed);
  }

  method ReviewScope(entries: seq<Entry>, o: Options) returns (refusal: Option<Error>)
    ensures refusal == None <==> InScope(entries, o)
  {
    if !o.allowSelectorReview {
      for i := 0 to |entries|
        invariant forall j :: 0 <= j < i ==> ScopeOf(entries[j]) == RUNTIME_SCOPE
      {
        if ScopeOf(entries[i]) != RUNTIME_SCOPE {
          return Some(SelectorReviewOnly(entries[i].key));
        }
      }
    }
    refusal := None;
  }

  method ReviewLedgers(entries: seq<Entry>, ledgers: seq<seq<LedgerEntry>>, o: Options) returns (refusal: Option<Error>)
    ensures refusal == None <==> LedgersPass(entries, ledgers, o)
  {
    var effectiveVariance := o.requireVariance || |ledgers| > 0;
    if !o.dryRun && |ledgers| == 0 {
      return Some(LedgerRequired);
    }
    if |ledgers| > 0 {
      var gate := ValidatePromotionLedgerGate(entries, ledgers, effectiveVariance, o.requireTarget);
      if gate.Err? {
        return Some(gate.error);
      }
    } else if effectiveVariance || o.requireTarget {
      return Some(GateNeedsLedger);
    }
    refusal := None;
  }

  /** Read and review every source, then apply the scope rule and the gates. */
  method ReviewSources(accepts: Entry -> bool, q: Request) returns (r: Result<seq<Entry>>)
    ensures r.Ok? <==> GatesPass(accepts, q)
    ensures r.Ok? ==> r.value == q.Entries()
  {
    r := ReadSources(accepts, q.sources);
    if r.Ok? {
      var refusal := ReviewScope(r.value, q.options);
      if refusal == None {
        refusal := ReviewLedgers(r.value, q.ledgers, q.options);
      }
      if refusal.Some? {
        r := Err(refusal.value);
      }
    }
  }

  class DestinationCache {
    /** `validate_entry`, which is not modelled further. */
    const accepts: Entry -> bool
    /** The entries in the destination file, or `None` when there is no file. */
    var stored: Option<seq<Entry>>
    /** Every request made so far. */
    ghost var log: seq<Request>

    constructor (accepts: Entry -> bool)
      ensures this.accepts == accepts && stored == None && log == [] && Clean()
    {
      this.accepts := accepts;
      stored := None;
      log := [];
    }

    /** Each stored entry is traced to the request that installed it. */
    ghost predicate Clean()
      reads this
    {
      AllInstalled(accepts, log, stored)
    }

    /** `install_cache`: succeeds exactly when the gates pass and the file it builds on is valid; what the file
        holds then is the old content overridden by the sources, and otherwise it stays. */
    method Install(q: Request) returns (r: Result<Summary>)
      modifies this
      ensures r.Ok? <==> Succeeds(accepts, old(stored), q)
      ensures Step(accepts, old(stored), q, stored)
      ensures r.Ok? ==> SummaryOf(r.value, Existing(old(stored), q.options), q.Entries())
      ensures r.Ok? && !q.options.dryRun ==> stored.Some? && forall e :: e in stored.value <==>
        || LastOf(q.sources, |q.sources|, e)
        || (NoneOf(q.sources, |q.sources|, e.key) && !q.options.replaceExisting && old(stored).Some?
            && LastIn(old(stored).value, |old(stored).value|, e))
      ensures log == old(log) + [q] && (old(Clean()) ==> Clean())
    {
      ghost var before, logBefore := stored, log;
      log := log + [q];
      r := Perform(q);
      if AllInstalled(accepts, logBefore, before) {
        StepKeepsReview(accepts, logBefore, before, q, stored);
      }
      if r.Ok? && !q.options.dryRun {
        forall e
          ensures e in stored.value <==>
            || LastOf(q.sources, |q.sources|, e)
            || (NoneOf(q.sources, |q.sources|, e.key) && !q.options.replaceExisting && before.Some?
                && LastIn(before.value, |before.value|, e))
        {
          StoredExactly(accepts, before, q, stored, e);
        }
      }
    }

    method Perform(q: Request) returns (r: Result<Summary>)
      modifies this`stored
      ensures r.Ok? <==> Succeeds(accepts, old(stored), q)
      ensures Step(accepts, old(stored), q, stored)
      ensures r.Ok? ==> SummaryOf(r.value, Existing(old(stored), q.options), q.Entries())
    {
      var existing: seq<Entry> := [];
      if !q.options.replaceExisting && stored.Some? {
        if !AllAccepted(accepts, stored.value) {
          return Err(ExistingCacheInvalid);
        }
        existing := stored.value;
      }
      var review := ReviewSources(accepts, q);
      if review.Err? {
        return Err(review.error);
      }
      var ordered, summary := Rewrite(existing, review.value);
      if !q.options.dryRun {
        stored := Some(ordered);
      }
      return Ok(summary);
    }
  }

  /** What the returned report says about the install. */
  ghost predicate SummaryOf(s: Summary, existing: seq<Entry>, entries: seq<Entry>)
  {
    var base := MergeAll(map[], existing);
    var merged := MergeAll(base, entries);
    && s.history == History(base, entries, |entries|) && s.sourceEntries == |entries|
    && s.existingEntries == |existing| && s.installedEntries == |merged| && s.addedEntries == |merged| - |base|
    && s.replacedEntries == |Replaced(existing, base, merged)|
  }

  /** On a file without repeated keys the replaced entries are exactly the keys whose entry changed. */
  lemma ReplacedAreChanged(existing: seq<Entry>, base: map<string, Entry>, merged: map<string, Entry>)
    requires Renders(existing, base) && base.Keys <= merged.Keys && forall key :: key in merged ==> merged[key].key == key
    ensures Replaced(existing, base, merged) == (set key | key in base && merged[key] != base[key])
  {
    forall key | key in base
      ensures merged[key] !in existing <==> merged[key] != base[key]
    {
      assert key in Keys(existing);
      var i :| 0 <= i < |existing| && Keys(existing)[i] == key;
      assert existing[i] == base[key];
    }
  }

  lemma {:induction false} MergeKeepsKeys(base: map<string, Entry>, entries: seq<Entry>, n: nat)
    requires n <= |entries|
    ensures base.Keys <= Merge(base, entries, n).Keys
  {
    if n > 0 {
      MergeKeepsKeys(base, entries, n - 1);
    }
  }
}
