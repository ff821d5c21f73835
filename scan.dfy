/** The scan of the cleaner: one pass over the key/value pairs of the range
    response, classifying each key, counting, printing, and, in delete mode,
    deleting binary keys from the store. */
module Scan {
  import opened Utf8
  import opened Classify
  import opened Preview
  import opened Modes
  import opened Output

  type Key = seq<Byte>

  /** One entry of the range response (`resp.Kvs`). */
  datatype KeyValue = KeyValue(key: Key, value: seq<Byte>)

  /** The counters of the scan: `totalCount`, `binaryCount`, `utf8Count`,
      `dryRunCount` and `deletedCount`. */
  datatype Counters = Counters(total: nat, binary: nat, utf8: nat, dryRun: nat, deleted: nat)

  /** The keys of the etcd store. `Delete` stands for `cli.Delete`: whether the
      call returns an error is up to the store and the network, so it is given
      as `succeeds`; a call that succeeds leaves the key out of the store. */
  class Store {
    var keys: set<Key>

    constructor (keys: set<Key>)
      ensures this.keys == keys
    {
      this.keys := keys;
    }

    method Delete(key: Key, succeeds: bool) returns (ok: bool)
      modifies this
      ensures ok == succeeds
      ensures keys == if ok then old(keys) - {key} else old(keys)
    {
      ok := succeeds;
      if ok {
        keys := keys - {key};
      }
    }
  }

  /** The scan deletes the key of `kv` and the delete succeeds: the key is
      binary, the mode is delete and not dry-run, and the store's answer `ok`
      is success. */
  predicate Removes(kv: KeyValue, m: EffectiveMode, ok: bool) {
    IsBinaryKey(kv.key) && !m.dryRun && m.delete && ok
  }

  /** What one entry does to the counters other than `total`. */
  function Step(c: Counters, kv: KeyValue, m: EffectiveMode, ok: bool): Counters {
    if IsBinaryKey(kv.key) then
      var c := c.(binary := c.binary + 1);
      if m.dryRun then c.(dryRun := c.dryRun + 1)
      else if m.delete && ok then c.(deleted := c.deleted + 1)
      else c
    else
      c.(utf8 := c.utf8 + 1)
  }

  /** The counters after scanning `rs`, where `oks[i]` is the store's answer
      to a delete of `rs[i].key`. */
  function Tally(rs: seq<KeyValue>, m: EffectiveMode, oks: seq<bool>): Counters
    requires |oks| == |rs|
  {
    if rs == [] then Counters(0, 0, 0, 0, 0)
    else
      var n := |rs| - 1;
      var c := Tally(rs[..n], m, oks[..n]);
      Step(c.(total := c.total + 1), rs[n], m, oks[n])
  }

  /** The store's keys after scanning `rs`. */
  function StoreAfter(keys: set<Key>, rs: seq<KeyValue>, m: EffectiveMode, oks: seq<bool>): set<Key>
    requires |oks| == |rs|
  {
    if rs == [] then keys
    else
      var n := |rs| - 1;
      var s := StoreAfter(keys, rs[..n], m, oks[..n]);
      if Removes(rs[n], m, oks[n]) then s - {rs[n].key} else s
  }

  /** The lines printed for one entry. */
  function EntryEvents(kv: KeyValue, m: EffectiveMode, debug: bool, ok: bool): seq<Event> {
    if IsBinaryKey(kv.key) then
      [BinaryKey(kv.key, PreviewRawValue(kv.value))] +
      (if m.dryRun then [WouldDelete(kv.key)]
       else if m.delete then (if ok then [Deleted(kv.key)] else [DeleteFailed(kv.key)])
       else [])
    else if debug then [Utf8Key(kv.key, PreviewUtf8(kv.value))]
    else []
  }

  /** The lines printed while scanning `rs`. */
  function Trace(rs: seq<KeyValue>, m: EffectiveMode, debug: bool, oks: seq<bool>): seq<Event>
    requires |oks| == |rs|
  {
    if rs == [] then []
    else
      var n := |rs| - 1;
      Trace(rs[..n], m, debug, oks[..n]) + EntryEvents(rs[n], m, debug, oks[n])
  }

  /** One turn of the scan loop, for the entry `kv`, with the counters so far
      in `c`. The key is classified with `isBinary` and `utf8.Valid`. A binary
      key is reported with a raw preview of its value and counted; then a dry
      run counts it as a dry-run deletion, and delete mode deletes it, counting
      it only when the delete succeeds (a failure is reported and is not
      fatal). A text key is counted and, with `--debug`, reported with a UTF-8
      preview of its value. */
  method ScanEntry(c: Counters, kv: KeyValue, m: EffectiveMode, debug: bool, store: Store, succeeds: bool)
    returns (c': Counters, lines: seq<Event>)
    modifies store
    ensures c' == Step(c, kv, m, succeeds)
    ensures lines == EntryEvents(kv, m, debug, succeeds)
    ensures store.keys == if Removes(kv, m, succeeds) then old(store.keys) - {kv.key} else old(store.keys)
  {
    var key, val := kv.key, kv.value;
    c', lines := c, [];
    var binary := ScanForBinary(key);
    if binary || !Valid(key) {
      lines := lines + [BinaryKey(key, PreviewRawValue(val))];
      c' := c'.(binary := c'.binary + 1);
      if m.dryRun {
        lines := lines + [WouldDelete(key)];
        c' := c'.(dryRun := c'.dryRun + 1);
      } else if m.delete {
        var ok := store.Delete(key, succeeds);
        if !ok {
          lines := lines + [DeleteFailed(key)];
        } else {
          lines := lines + [Deleted(key)];
          c' := c'.(deleted := c'.deleted + 1);
        }
      }
    } else {
      c' := c'.(utf8 := c'.utf8 + 1);
      if debug {
        lines := lines + [Utf8Key(key, PreviewUtf8(val))];
      }
    }
  }

  /** The scan loop: `total` is set to the number of entries up front, the
      other counters start at zero, and each entry is handled in order, the
      i-th delete getting the store's answer `oks[i]`. The counters, the
      printed lines and the store end as `Tally`, `Trace` and `StoreAfter`
      say. */
  method ScanEntries(records: seq<KeyValue>, m: EffectiveMode, debug: bool, store: Store, oks: seq<bool>)
    returns (c: Counters, out: seq<Event>)
    requires |oks| == |records|
    modifies store
    ensures c == Tally(records, m, oks)
    ensures out == Trace(records, m, debug, oks)
    ensures store.keys == StoreAfter(old(store.keys), records, m, oks)
  {
    ghost var keys := store.keys;
    c := Counters(|records|, 0, 0, 0, 0);
    out := [];
    for i := 0 to |records|
      invariant c.total == |records| && Tally(records[..i], m, oks[..i]) == c.(total := i)
      invariant out == Trace(records[..i], m, debug, oks[..i])
      invariant store.keys == StoreAfter(keys, records[..i], m, oks[..i])
    {
      PrefixStep(keys, records, m, debug, oks, i);
      StepKeepsTotal(c, records[i], m, oks[i], i + 1);
      var lines;
      c, lines := ScanEntry(c, records[i], m, debug, store, oks[i]);
      out := out + lines;
    }
    assert records[..|records|] == records && oks[..|oks|] == oks;
  }

  /** `Step` leaves `total` alone. */
  lemma StepKeepsTotal(c: Counters, kv: KeyValue, m: EffectiveMode, ok: bool, t: nat)
    ensures Step(c, kv, m, ok).total == c.total
    ensures Step(c, kv, m, ok).(total := t) == Step(c.(total := t), kv, m, ok)
  {
  }

  /** The specification functions on a prefix one entry longer. */
  lemma PrefixStep(keys: set<Key>, rs: seq<KeyValue>, m: EffectiveMode, debug: bool, oks: seq<bool>, i: nat)
    requires |oks| == |rs| && i < |rs|
    ensures var c := Tally(rs[..i], m, oks[..i]);
      Tally(rs[..i + 1], m, oks[..i + 1]) == Step(c.(total := c.total + 1), rs[i], m, oks[i])
    ensures Trace(rs[..i + 1], m, debug, oks[..i + 1]) == Trace(rs[..i], m, debug, oks[..i]) + EntryEvents(rs[i], m, debug, oks[i])
    ensures var s := StoreAfter(keys, rs[..i], m, oks[..i]);
      StoreAfter(keys, rs[..i + 1], m, oks[..i + 1]) == if Removes(rs[i], m, oks[i]) then s - {rs[i].key} else s
  {
    assert rs[..i + 1][..i] == rs[..i] && oks[..i + 1][..i] == oks[..i];
  }

  /** The positions of `rs` holding binary keys. */
  function BinaryIndices(rs: seq<KeyValue>): set<int> {
    set i | 0 <= i < |rs| && IsBinaryKey(rs[i].key)
  }

  /** The positions of `rs` whose key the scan deletes successfully. */
  function RemovedIndices(rs: seq<KeyValue>, m: EffectiveMode, oks: seq<bool>): set<int>
    requires |oks| == |rs|
  {
    set i | 0 <= i < |rs| && Removes(rs[i], m, oks[i])
  }

  /** The keys the scan deletes successfully. */
  function RemovedKeys(rs: seq<KeyValue>, m: EffectiveMode, oks: seq<bool>): set<Key>
    requires |oks| == |rs|
  {
    set i | 0 <= i < |rs| && Removes(rs[i], m, oks[i]) :: rs[i].key
  }

  /** Every counter of `a` is at most the same counter of `b`. */
  predicate AtMost(a: Counters, b: Counters) {
    a.total <= b.total && a.binary <= b.binary && a.utf8 <= b.utf8 &&
    a.dryRun <= b.dryRun && a.deleted <= b.deleted
  }

  /** The summary's invariants: every entry is counted once, as binary or as
      UTF-8; dry-run and deleted keys are binary keys; only a dry run counts
      dry-run deletions, and it counts every binary key; only delete mode
      counts deletions. */
  lemma {:induction false} TallyInvariants(rs: seq<KeyValue>, m: EffectiveMode, oks: seq<bool>)
    requires |oks| == |rs|
    ensures var c := Tally(rs, m, oks);
      && c.total == |rs|
      && c.binary + c.utf8 == c.total
      && c.dryRun <= c.binary && c.deleted <= c.binary
      && (m.dryRun ==> c.dryRun == c.binary && c.deleted == 0)
      && (!m.dryRun ==> c.dryRun == 0)
      && (!m.delete ==> c.deleted == 0)
  {
    if rs != [] {
      var n := |rs| - 1;
      TallyInvariants(rs[..n], m, oks[..n]);
    }
  }

  /** The counters never decrease: those after any prefix of the entries are at
      most the final ones. */
  lemma {:induction false} TallyMonotone(rs: seq<KeyValue>, m: EffectiveMode, oks: seq<bool>, k: nat)
    requires |oks| == |rs| && k <= |rs|
    ensures AtMost(Tally(rs[..k], m, oks[..k]), Tally(rs, m, oks))
  {
    if k < |rs| {
      var n := |rs| - 1;
      assert rs[..n][..k] == rs[..k] && oks[..n][..k] == oks[..k];
      TallyMonotone(rs[..n], m, oks[..n], k);
    } else {
      assert rs[..k] == rs && oks[..k] == oks;
    }
  }

  /** The binary counter is the number of binary keys; the deleted counter is
      the number of binary keys whose delete succeeded in delete mode; the
      dry-run counter is the number of binary keys in a dry run and zero
      otherwise. */
  lemma {:induction false} TallyCounts(rs: seq<KeyValue>, m: EffectiveMode, oks: seq<bool>)
    requires |oks| == |rs|
    ensures var c := Tally(rs, m, oks);
      && c.binary == |BinaryIndices(rs)|
      && c.deleted == |RemovedIndices(rs, m, oks)|
      && c.dryRun == if m.dryRun then |BinaryIndices(rs)| else 0
  {
    if rs != [] {
      var n := |rs| - 1;
      TallyCounts(rs[..n], m, oks[..n]);
      IndicesSnoc(rs, m, oks);
    }
  }

  /** How the index sets grow by the last entry. */
  lemma IndicesSnoc(rs: seq<KeyValue>, m: EffectiveMode, oks: seq<bool>)
    requires |oks| == |rs| > 0
    ensures var n := |rs| - 1;
      var b, r := BinaryIndices(rs[..n]), RemovedIndices(rs[..n], m, oks[..n]);
      && n !in b && n !in r
      && BinaryIndices(rs) == (if IsBinaryKey(rs[n].key) then b + {n} else b)
      && RemovedIndices(rs, m, oks) == (if Removes(rs[n], m, oks[n]) then r + {n} else r)
  {
    var n := |rs| - 1;
    assert forall i :: 0 <= i < n ==> rs[..n][i] == rs[i] && oks[..n][i] == oks[i];
  }

  /** The store after the scan is the store before it less the keys the scan
      deleted successfully. */
  lemma {:induction false} StoreAfterRemoves(keys: set<Key>, rs: seq<KeyValue>, m: EffectiveMode, oks: seq<bool>)
    requires |oks| == |rs|
    ensures StoreAfter(keys, rs, m, oks) == keys - RemovedKeys(rs, m, oks)
  {
    if rs != [] {
      var n := |rs| - 1;
      StoreAfterRemoves(keys, rs[..n], m, oks[..n]);
      var before := RemovedKeys(rs[..n], m, oks[..n]);
      if Removes(rs[n], m, oks[n]) {
        assert RemovedKeys(rs, m, oks) == before + {rs[n].key};
      } else {
        assert RemovedKeys(rs, m, oks) == before;
      }
    }
  }

  /** What the scan may do to the store: remove keys and add none; remove only
      binary keys, and only in delete mode; remove every binary key whose
      delete succeeded; keep every text key. */
  lemma StoreChanges(keys: set<Key>, rs: seq<KeyValue>, m: EffectiveMode, oks: seq<bool>)
    requires |oks| == |rs|
    ensures var after := StoreAfter(keys, rs, m, oks);
      && after <= keys
      && (forall k :: k in keys && k !in after ==> IsBinaryKey(k))
      && (m.dryRun || !m.delete ==> after == keys)
      && (forall i :: 0 <= i < |rs| && Removes(rs[i], m, oks[i]) ==> rs[i].key !in after)
      && (forall k :: k in keys && !IsBinaryKey(k) ==> k in after)
  {
    StoreAfterRemoves(keys, rs, m, oks);
    var removed := RemovedKeys(rs, m, oks);
    assert forall k :: k in removed ==> IsBinaryKey(k);
    assert m.dryRun || !m.delete ==> removed == {};
  }

  /** When the entries have distinct keys, all in the store (as a range
      response gives them), the deleted counter is the number of keys the
      scan took out of the store. */
  lemma {:induction false} DeletedMatchesStore(keys: set<Key>, rs: seq<KeyValue>, m: EffectiveMode, oks: seq<bool>)
    requires |oks| == |rs|
    requires forall i, j :: 0 <= i < j < |rs| ==> rs[i].key != rs[j].key
    requires forall i :: 0 <= i < |rs| ==> rs[i].key in keys
    ensures |StoreAfter(keys, rs, m, oks)| + Tally(rs, m, oks).deleted == |keys|
  {
    if rs != [] {
      var n := |rs| - 1;
      var rs', oks' := rs[..n], oks[..n];
      DeletedMatchesStore(keys, rs', m, oks');
      if Removes(rs[n], m, oks[n]) {
        StoreAfterRemoves(keys, rs', m, oks');
        assert rs[n].key !in RemovedKeys(rs', m, oks');
        assert rs[n].key in StoreAfter(keys, rs', m, oks');
      }
    }
  }

  /** The lines the scan may print for the entry `kv` whose delete answer is
      `ok`: the report of a binary key with the raw preview of its value; a
      dry-run line only in a dry run; a deleted line only when its own delete
      succeeded; a failed line only when its own delete failed in delete mode;
      the report of a text key with the UTF-8 preview of its value only with
      `--debug`. Each names the entry's key. */
  predicate EntryAllows(e: Event, kv: KeyValue, m: EffectiveMode, debug: bool, ok: bool) {
    match e
    case BinaryKey(k, p) => k == kv.key && IsBinaryKey(k) && p == PreviewRawValue(kv.value)
    case WouldDelete(k) => k == kv.key && IsBinaryKey(k) && m.dryRun
    case Deleted(k) => k == kv.key && Removes(kv, m, ok)
    case DeleteFailed(k) => k == kv.key && IsBinaryKey(k) && m.delete && !m.dryRun && !ok
    case Utf8Key(k, p) => k == kv.key && !IsBinaryKey(k) && debug && p == PreviewUtf8(kv.value)
    case _ => false
  }

  /** Every line printed for one entry is one `EntryAllows` for it. */
  lemma EntrySound(kv: KeyValue, m: EffectiveMode, debug: bool, ok: bool)
    ensures forall e :: e in EntryEvents(kv, m, debug, ok) ==> EntryAllows(e, kv, m, debug, ok)
  {
  }

  /** Every line the scan prints belongs to one of the fetched entries and is
      one `EntryAllows` for that entry, its value and its delete answer. */
  lemma {:induction false} TraceSound(rs: seq<KeyValue>, m: EffectiveMode, debug: bool, oks: seq<bool>)
    requires |oks| == |rs|
    ensures forall e :: e in Trace(rs, m, debug, oks) ==>
      exists i :: 0 <= i < |rs| && EntryAllows(e, rs[i], m, debug, oks[i])
  {
    if rs != [] {
      var n := |rs| - 1;
      var rs', oks' := rs[..n], oks[..n];
      TraceSound(rs', m, debug, oks');
      EntrySound(rs[n], m, debug, oks[n]);
      var before, last := Trace(rs', m, debug, oks'), EntryEvents(rs[n], m, debug, oks[n]);
      forall e | e in before + last
        ensures exists i :: 0 <= i < |rs| && EntryAllows(e, rs[i], m, debug, oks[i])
      {
        if e in before {
          var i :| 0 <= i < n && EntryAllows(e, rs'[i], m, debug, oks'[i]);
          assert rs'[i] == rs[i] && oks'[i] == oks[i];
        } else {
          assert EntryAllows(e, rs[n], m, debug, oks[n]);
        }
      }
    }
  }

  /** A deleted line is printed for a key exactly when the scan deleted that
      key successfully. */
  lemma DeletedLines(rs: seq<KeyValue>, m: EffectiveMode, debug: bool, oks: seq<bool>, k: Key)
    requires |oks| == |rs|
    ensures Deleted(k) in Trace(rs, m, debug, oks) <==> k in RemovedKeys(rs, m, oks)
  {
    if Deleted(k) in Trace(rs, m, debug, oks) {
      TraceSound(rs, m, debug, oks);
      var i :| 0 <= i < |rs| && EntryAllows(Deleted(k), rs[i], m, debug, oks[i]);
    }
    if k in RemovedKeys(rs, m, oks) {
      var i :| 0 <= i < |rs| && Removes(rs[i], m, oks[i]) && rs[i].key == k;
      TraceComplete(rs, m, debug, oks, i);
    }
  }

  /** The scan reports every binary key with the raw preview of its value,
      reports every successful deletion, and with `--debug` reports every text
      key with the UTF-8 preview of its value. */
  lemma {:induction false} TraceComplete(rs: seq<KeyValue>, m: EffectiveMode, debug: bool, oks: seq<bool>, i: nat)
    requires |oks| == |rs| && i < |rs|
    ensures var t := Trace(rs, m, debug, oks);
      && (IsBinaryKey(rs[i].key) ==> BinaryKey(rs[i].key, PreviewRawValue(rs[i].value)) in t)
      && (IsBinaryKey(rs[i].key) && m.dryRun ==> WouldDelete(rs[i].key) in t)
      && (Removes(rs[i], m, oks[i]) ==> Deleted(rs[i].key) in t)
      && (IsBinaryKey(rs[i].key) && !m.dryRun && m.delete && !oks[i] ==> DeleteFailed(rs[i].key) in t)
      && (debug && !IsBinaryKey(rs[i].key) ==> Utf8Key(rs[i].key, PreviewUtf8(rs[i].value)) in t)
  {
    var n := |rs| - 1;
    var rs', oks' := rs[..n], oks[..n];
    if i == n {
      EntryComplete(rs[n], m, debug, oks[n]);
    } else {
      TraceComplete(rs', m, debug, oks', i);
      assert rs'[i] == rs[i] && oks'[i] == oks[i];
    }
  }

  /** The lines printed for one entry hold its report and its deleted line. */
  lemma EntryComplete(kv: KeyValue, m: EffectiveMode, debug: bool, ok: bool)
    ensures var e := EntryEvents(kv, m, debug, ok);
      && (IsBinaryKey(kv.key) ==> BinaryKey(kv.key, PreviewRawValue(kv.value)) in e)
      && (IsBinaryKey(kv.key) && m.dryRun ==> WouldDelete(kv.key) in e)
      && (Removes(kv, m, ok) ==> Deleted(kv.key) in e)
      && (IsBinaryKey(kv.key) && !m.dryRun && m.delete && !ok ==> DeleteFailed(kv.key) in e)
      && (debug && !IsBinaryKey(kv.key) ==> Utf8Key(kv.key, PreviewUtf8(kv.value)) in e)
  {
  }

  /** The lines printed for one entry, in order: a binary key's report comes
      first and is followed by at most one line, the dry-run, deleted or failed
      line, exactly when the run is a dry run or in delete mode; a text key
      gets one line with `--debug` and none without. */
  lemma EntryShape(kv: KeyValue, m: EffectiveMode, debug: bool, ok: bool)
    ensures var e := EntryEvents(kv, m, debug, ok);
      && (IsBinaryKey(kv.key) ==>
            |e| == (if m.dryRun || m.delete then 2 else 1) && e[0] == BinaryKey(kv.key, PreviewRawValue(kv.value)))
      && (!IsBinaryKey(kv.key) ==> |e| == if debug then 1 else 0)
  {
  }

  /** How many lines of each kind one entry prints. */
  lemma EntryCounts(kv: KeyValue, m: EffectiveMode, debug: bool, ok: bool)
    ensures var e, b := EntryEvents(kv, m, debug, ok), IsBinaryKey(kv.key);
      && Count(e, IsBinaryReport) == (if b then 1 else 0)
      && Count(e, IsDryRunLine) == (if b && m.dryRun then 1 else 0)
      && Count(e, IsDeletedLine) == (if Removes(kv, m, ok) then 1 else 0)
      && Count(e, IsFailedLine) == (if b && !m.dryRun && m.delete && !ok then 1 else 0)
      && Count(e, IsUtf8Report) == (if !b && debug then 1 else 0)
  {
    var e := EntryEvents(kv, m, debug, ok);
    if |e| == 2 {
      assert e[1..][1..] == [];
    } else if |e| == 1 {
      assert e[1..] == [];
    }
  }

  /** What one entry adds to each counter. */
  lemma StepFields(c: Counters, kv: KeyValue, m: EffectiveMode, ok: bool)
    ensures var s, b := Step(c, kv, m, ok), IsBinaryKey(kv.key);
      && s.binary == c.binary + (if b then 1 else 0)
      && s.utf8 == c.utf8 + (if b then 0 else 1)
      && s.dryRun == c.dryRun + (if b && m.dryRun then 1 else 0)
      && s.deleted == c.deleted + (if Removes(kv, m, ok) then 1 else 0)
  {
  }

  /** The scan prints one line per binary key, one more per binary key in a
      dry run or in delete mode, and, with `--debug`, one per text key. */
  lemma {:induction false} TraceLength(rs: seq<KeyValue>, m: EffectiveMode, debug: bool, oks: seq<bool>)
    requires |oks| == |rs|
    ensures var c := Tally(rs, m, oks);
      |Trace(rs, m, debug, oks)| == c.binary + (if m.dryRun || m.delete then c.binary else 0) + (if debug then c.utf8 else 0)
  {
    if rs != [] {
      var n := |rs| - 1;
      var c := Tally(rs[..n], m, oks[..n]);
      TraceLength(rs[..n], m, debug, oks[..n]);
      EntryShape(rs[n], m, debug, oks[n]);
      StepFields(c.(total := c.total + 1), rs[n], m, oks[n]);
    }
  }

  /** The printed lines add up to the counters: one report per binary key,
      one dry-run line per binary key in a dry run, one deleted line per
      counted deletion, one failed line per binary key not deleted in delete
      mode, and, with `--debug`, one report per text key. */
  lemma {:induction false} TraceCounts(rs: seq<KeyValue>, m: EffectiveMode, debug: bool, oks: seq<bool>)
    requires |oks| == |rs|
    ensures var c, t := Tally(rs, m, oks), Trace(rs, m, debug, oks);
      && Count(t, IsBinaryReport) == c.binary
      && Count(t, IsDryRunLine) == c.dryRun
      && Count(t, IsDeletedLine) == c.deleted
      && Count(t, IsFailedLine) == (if m.delete && !m.dryRun then c.binary - c.deleted else 0)
      && Count(t, IsUtf8Report) == (if debug then c.utf8 else 0)
  {
    if rs != [] {
      var n := |rs| - 1;
      var rs', oks' := rs[..n], oks[..n];
      var c := Tally(rs', m, oks');
      TraceCounts(rs', m, debug, oks');
      var before, last := Trace(rs', m, debug, oks'), EntryEvents(rs[n], m, debug, oks[n]);
      EntryCounts(rs[n], m, debug, oks[n]);
      StepFields(c.(total := c.total + 1), rs[n], m, oks[n]);
      CountAppend(before, last, IsBinaryReport);
      CountAppend(before, last, IsDryRunLine);
      CountAppend(before, last, IsDeletedLine);
      CountAppend(before, last, IsFailedLine);
      CountAppend(before, last, IsUtf8Report);
    }
  }

  /** The lines of the first `k` entries are printed before all others: the
      scan prints entry by entry, in the order the range response gives. */
  lemma {:induction false} TracePrefix(rs: seq<KeyValue>, m: EffectiveMode, debug: bool, oks: seq<bool>, k: nat)
    requires |oks| == |rs| && k <= |rs|
    ensures Trace(rs[..k], m, debug, oks[..k]) <= Trace(rs, m, debug, oks)
    decreases |rs| - k
  {
    if k == |rs| {
      assert rs[..k] == rs && oks[..k] == oks;
    } else {
      var n := |rs| - 1;
      TracePrefix(rs[..n], m, debug, oks[..n], k);
      assert rs[..n][..k] == rs[..k] && oks[..n][..k] == oks[..k];
    }
  }
}
