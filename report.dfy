/** The cleaner's run after the range fetch: the override note, the scan, the
    mode line and the summary. */
module Report {
  import opened Classify
  import opened Preview
  import opened Modes
  import opened Output
  import opened Scan

  /** The mode line and the summary. The mode line names the dry run first, so
      at most one is printed; the two remediation totals are guarded one by
      one, so each follows its own mode. */
  function Summary(m: EffectiveMode, c: Counters): (lines: seq<Event>)
    ensures SummaryHeader in lines
    ensures BinaryTotal(c.binary) in lines && Utf8Total(c.utf8) in lines && KeyTotal(c.total) in lines
    ensures ModeDryRun in lines <==> m.dryRun
    ensures ModeDelete in lines <==> m.delete && !m.dryRun
    ensures DryRunTotal(c.dryRun) in lines <==> m.dryRun
    ensures DeletedTotal(c.deleted) in lines <==> m.delete
    ensures |lines| == 4 + (if m.dryRun || m.delete then 1 else 0)
                         + (if m.dryRun then 1 else 0) + (if m.delete then 1 else 0)
  {
    (if m.dryRun then [ModeDryRun] else if m.delete then [ModeDelete] else []) +
    [SummaryHeader, BinaryTotal(c.binary), Utf8Total(c.utf8), KeyTotal(c.total)] +
    (if m.dryRun then [DryRunTotal(c.dryRun)] else []) +
    (if m.delete then [DeletedTotal(c.deleted)] else [])
  }

  /** The summary's lines in the order printed, mode by mode: the mode line,
      the header with the binary, UTF-8 and key totals, then the dry-run total
      and last the deleted total. */
  lemma SummaryOrder(m: EffectiveMode, c: Counters)
    ensures var totals := [SummaryHeader, BinaryTotal(c.binary), Utf8Total(c.utf8), KeyTotal(c.total)];
      && (m.dryRun && !m.delete ==> Summary(m, c) == [ModeDryRun] + totals + [DryRunTotal(c.dryRun)])
      && (!m.dryRun && m.delete ==> Summary(m, c) == [ModeDelete] + totals + [DeletedTotal(c.deleted)])
      && (!m.dryRun && !m.delete ==> Summary(m, c) == totals)
      && (m.dryRun && m.delete ==> Summary(m, c) == [ModeDryRun] + totals + [DryRunTotal(c.dryRun), DeletedTotal(c.deleted)])
  {
    var totals := [SummaryHeader, BinaryTotal(c.binary), Utf8Total(c.utf8), KeyTotal(c.total)];
    if !m.dryRun && !m.delete {
      assert [] + totals + [] + [] == totals;
    }
  }

  /** Everything a run prints, given the flags, the fetched entries and the
      store's answers to deletes. */
  function Printed(dry: bool, remove: bool, debug: bool, rs: seq<KeyValue>, oks: seq<bool>): seq<Event>
    requires |oks| == |rs|
  {
    var m := EffectiveModes(dry, remove);
    (if OverrideNotice(dry, remove) then [OverrideNote] else []) +
    Trace(rs, m, debug, oks) +
    Summary(m, Tally(rs, m, oks))
  }

  /** A run from the flags to the summary, on the entries the range fetch
      returned. */
  method Clean(dry: bool, remove: bool, debug: bool, records: seq<KeyValue>, store: Store, oks: seq<bool>)
    returns (out: seq<Event>)
    requires |oks| == |records|
    modifies store
    ensures out == Printed(dry, remove, debug, records, oks)
    ensures store.keys == StoreAfter(old(store.keys), records, EffectiveModes(dry, remove), oks)
  {
    var note := [];
    if dry && remove {
      note := [OverrideNote];
    }
    var m := EffectiveModes(dry, remove);
    var c, events := ScanEntries(records, m, debug, store, oks);
    out := note + events + Summary(m, c);
  }

  /** The summary of a run adds up: the binary and UTF-8 totals sum to the
      number of entries; at most one remediation total is printed, the dry-run
      total exactly with `--dry` and the deleted total exactly with `--remove`
      alone; a dry run reports every binary key as one that would be deleted;
      `--remove` alone reports the number of binary keys whose delete
      succeeded, and nothing is deleted otherwise. */
  lemma RunSummary(dry: bool, remove: bool, rs: seq<KeyValue>, oks: seq<bool>)
    requires |oks| == |rs|
    ensures var m := EffectiveModes(dry, remove);
      var c := Tally(rs, m, oks);
      var lines := Summary(m, c);
      && KeyTotal(|rs|) in lines
      && c.binary + c.utf8 == |rs|
      && !(DryRunTotal(c.dryRun) in lines && DeletedTotal(c.deleted) in lines)
      && (DryRunTotal(c.dryRun) in lines ==> c.dryRun == c.binary == |BinaryIndices(rs)|)
      && (DeletedTotal(c.deleted) in lines ==> c.deleted == |RemovedIndices(rs, m, oks)|)
      && (DryRunTotal(c.dryRun) in lines <==> dry)
      && (DeletedTotal(c.deleted) in lines <==> remove && !dry)
      && (!remove || dry ==> c.deleted == 0)
      && (remove && !dry ==>
            RemovedIndices(rs, m, oks) == set i | 0 <= i < |rs| && IsBinaryKey(rs[i].key) && oks[i])
  {
    var m := EffectiveModes(dry, remove);
    TallyInvariants(rs, m, oks);
    TallyCounts(rs, m, oks);
  }

  /** Two entries: the key 0xFF 0xFE with value "abc", and the key "hello"
      with value "world". */
  function TwoEntries(): seq<KeyValue> {
    [KeyValue([0xFF, 0xFE], [0x61, 0x62, 0x63]),
     KeyValue([0x68, 0x65, 0x6C, 0x6C, 0x6F], [0x77, 0x6F, 0x72, 0x6C, 0x64])]
  }

  /** The first key of `TwoEntries` is binary, the second is text. */
  lemma TwoEntriesKeys()
    ensures var rs := TwoEntries();
      IsBinaryKey(rs[0].key) && !IsBinaryKey(rs[1].key) && rs[0].key != rs[1].key
  {
    var rs := TwoEntries();
    assert !IsTextByte(rs[0].key[0]);
    Utf8CheckRedundant(rs[1].key);
  }

  /** Report-only on the two entries: one binary key, reported with its whole
      value and no ellipsis, one text key, not reported without `--debug`,
      nothing deleted and the store untouched. */
  lemma ReportOnlyScenario(keys: set<Key>, oks: seq<bool>)
    requires |oks| == 2
    ensures var m := EffectiveModes(false, false);
      && Tally(TwoEntries(), m, oks) == Counters(2, 1, 1, 0, 0)
      && Trace(TwoEntries(), m, false, oks) == [BinaryKey([0xFF, 0xFE], Quoted([0x61, 0x62, 0x63], false))]
      && StoreAfter(keys, TwoEntries(), m, oks) == keys
  {
    var rs, m := TwoEntries(), EffectiveModes(false, false);
    TwoEntriesKeys();
    assert rs[..0] == [] && oks[..0] == [] && rs[..2] == rs && oks[..2] == oks;
    PrefixStep(keys, rs, m, false, oks, 0);
    PrefixStep(keys, rs, m, false, oks, 1);
  }

  /** Delete mode on the two entries: the binary key is deleted and counted
      when the store accepts the delete; otherwise the failure is reported,
      nothing is counted as deleted, and the run still counts both entries. */
  lemma DeleteScenario(ok: bool)
    ensures var m, oks, rs := EffectiveModes(false, true), [ok, true], TwoEntries();
      && Tally(rs, m, oks) == Counters(2, 1, 1, 0, if ok then 1 else 0)
      && Trace(rs, m, false, oks) ==
           [BinaryKey(rs[0].key, Quoted(rs[0].value, false)),
            if ok then Deleted(rs[0].key) else DeleteFailed(rs[0].key)]
      && StoreAfter({rs[0].key, rs[1].key}, rs, m, oks) ==
           if ok then {rs[1].key} else {rs[0].key, rs[1].key}
  {
    var m, oks, rs := EffectiveModes(false, true), [ok, true], TwoEntries();
    var keys := {rs[0].key, rs[1].key};
    TwoEntriesKeys();
    assert rs[..0] == [] && oks[..0] == [] && rs[..2] == rs && oks[..2] == oks;
    PrefixStep(keys, rs, m, false, oks, 0);
    PrefixStep(keys, rs, m, false, oks, 1);
    if ok {
      assert StoreAfter(keys, rs[..1], m, oks[..1]) == {rs[1].key};
    } else {
      assert Trace(rs[..1], m, false, oks[..1]) ==
        [BinaryKey(rs[0].key, Quoted(rs[0].value, false)), DeleteFailed(rs[0].key)];
    }
  }
}
