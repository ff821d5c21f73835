/** What the cleaner prints, one event per line. Colours, the exact wording and
    the hex and `%q` renderings of keys are presentation and are not modelled;
    an event carries the key and, where one is printed, the value preview. */
module Output {
  import opened Utf8
  import opened Preview

  datatype Event =
    | OverrideNote                               // both --dry and --remove were given
    | BinaryKey(key: seq<Byte>, value: Preview)  // a binary key: its hex, its raw form, its value's raw preview
    | WouldDelete(key: seq<Byte>)                // a dry-run deletion
    | DeleteFailed(key: seq<Byte>)               // a delete that returned an error
    | Deleted(key: seq<Byte>)                    // a delete that succeeded
    | Utf8Key(key: seq<Byte>, value: Preview)    // a text key under --debug, with its value's UTF-8 preview
    | ModeDryRun                                 // the mode line of a dry run
    | ModeDelete                                 // the mode line of delete mode
    | SummaryHeader
    | BinaryTotal(n: nat)
    | Utf8Total(n: nat)
    | KeyTotal(n: nat)
    | DryRunTotal(n: nat)                        // keys that would be deleted
    | DeletedTotal(n: nat)                       // keys deleted

  /** The number of lines of `t` that satisfy `p`. */
  function Count(t: seq<Event>, p: Event -> bool): (n: nat)
    ensures n <= |t|
  {
    if t == [] then 0 else (if p(t[0]) then 1 else 0) + Count(t[1..], p)
  }

  /** Counting lines distributes over printing one block after another. */
  lemma {:induction false} CountAppend(a: seq<Event>, b: seq<Event>, p: Event -> bool)
    ensures Count(a + b, p) == Count(a, p) + Count(b, p)
  {
    if a == [] {
      assert a + b == b;
    } else {
      assert (a + b)[1..] == a[1..] + b;
      CountAppend(a[1..], b, p);
    }
  }

  /** The kinds of line the scan prints. */
  predicate IsBinaryReport(e: Event) { e.BinaryKey? }
  predicate IsDryRunLine(e: Event) { e.WouldDelete? }
  predicate IsDeletedLine(e: Event) { e.Deleted? }
  predicate IsFailedLine(e: Event) { e.DeleteFailed? }
  predicate IsUtf8Report(e: Event) { e.Utf8Key? }
}
