/** The cleaner's effective modes, computed once from the `--dry` and
    `--remove` flags before the scan starts. */
module Modes {

  /** `modeDryRun` and `modeDelete`; neither set is report-only. */
  datatype EffectiveMode = EffectiveMode(dryRun: bool, delete: bool)

  /** The effective modes: a dry run exactly when `--dry` is given, deletion
      exactly when `--remove` is given without `--dry` (so `--dry` wins and
      the two are never both on), and a report-only run exactly when neither
      flag is given. */
  function EffectiveModes(dry: bool, remove: bool): (m: EffectiveMode)
    ensures m.dryRun <==> dry
    ensures m.delete <==> remove && !dry
    ensures !(m.dryRun && m.delete)
    ensures !m.dryRun && !m.delete <==> !dry && !remove
  {
    EffectiveMode(dry, remove && !dry)
  }

  /** The note "--dry overrides --remove" is printed exactly when both flags
      are given, and then the run is a dry run that deletes nothing. */
  function OverrideNotice(dry: bool, remove: bool): (shown: bool)
    ensures shown ==> EffectiveModes(dry, remove) == EffectiveMode(true, false) && remove
    ensures shown <==> remove && !EffectiveModes(dry, remove).delete
  {
    dry && remove
  }
}
