/** The enumerations of the fact database that the analysis queries test. */
module QueryTypes {

  /** The safety of a MIR source scope; `Unknown` when rustc recorded none. */
  datatype ScopeSafety = Safe | BuiltinUnsafe | FnUnsafe | ExplicitUnsafe | Unknown

  /** How a HIR block was checked for unsafety. */
  datatype BlockCheckMode =
    | DefaultBlock
    | UnsafeBlockCompilerGenerated
    | UnsafeBlockUserProvided
    | PushUnsafeBlockCompilerGenerated
    | PushUnsafeBlockUserProvided
    | PopUnsafeBlockCompilerGenerated
    | PopUnsafeBlockUserProvided

  /** `explicit_unsafe_group` is a `u32`. */
  newtype u32 = x: int | 0 <= x < 0x1_0000_0000
}
