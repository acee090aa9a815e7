/** The crate and function whitelists of the reports: crates that are
    bindings to or wrappers of C and C++ code, and functions whose name
    says they skip a check. */
module ReportWhitelists {
  import opened PyStrings
  import Text

  /** The standard library crates. */
  const TrustedCrateNames: set<string> := {"std", "core", "alloc", "proc_macro"}

  /** Crates that load libraries or use reflection at run time. */
  const DynamicFeaturesCrateNames: set<string> := {"libloading", "shared_library", "dl_api", "dlopen"}

  /** Crates for particular hardware. */
  const HardwareCrateNames: set<string> := {
    "stm32f4", "oxcc_stm32f767", "mkl26z4", "stm32l4", "atsamd51j20a", "gd32vf103_pac",
    "stm32l4x6", "stm32l0", "e310x", "vks"}

  /** A crate name with one of the conventional suffixes of binding crates. */
  predicate HasBindingSuffix(x: string)
  {
    EndsWith(x, "_sys") || EndsWith(x, "_bindgen") || EndsWith(x, "_ffi") || EndsWith(x, "_bindings")
  }

  /** Bindings to C libraries. */
  const CBindingCrates: set<string> := {"libc", "gl", "gl32", "glow"}

  /** Wrappers around C and C++ libraries. */
  const CWrapperCrates: set<string> := {"glib", "gdnative_common", "gdnative_core", "qt_core"}

  /** Crates that call C and C++ wrappers around C and C++ libraries. */
  const CWrapperCallerCrates: set<string> := {"nsf_imgui_raw", "x11", "gfx_gl"}

  /** Other C and C++ interoperability. */
  const CppInteropCrates: set<string> := {"cpp_core"}

  /** The twelve crates listed by name. */
  const ListedSysCrates: set<string> := CBindingCrates + CWrapperCrates + CWrapperCallerCrates + CppInteropCrates

  /** `get_sys_crate_names`: the binding-suffixed names among the input,
      with the known binding and wrapper crates added in four groups. */
  function GetSysCrateNames(allCrateNames: seq<string>): (res: set<string>)
    ensures forall x :: x in res <==> (x in allCrateNames && HasBindingSuffix(x)) || x in ListedSysCrates
  {
    var res := set x | x in allCrateNames && HasBindingSuffix(x);
    res + CBindingCrates + CWrapperCrates + CWrapperCallerCrates + CppInteropCrates
  }

  /** More input names never lose a name from the result. */
  lemma GetSysCrateNamesMonotone(a: seq<string>, b: seq<string>)
    requires forall x :: x in a ==> x in b
    ensures GetSysCrateNames(a) <= GetSysCrateNames(b)
  {
  }

  /** Feeding the result back in gives the same set: every name in it is
      suffixed or fixed. */
  lemma GetSysCrateNamesIdempotent(names: seq<string>, again: seq<string>)
    requires forall x :: x in again <==> x in GetSysCrateNames(names)
    ensures GetSysCrateNames(again) == GetSysCrateNames(names)
  {
  }

  /** `get_unchecked_function_names`: the definition paths whose last
      `::` segment contains `unchecked`. */
  function GetUncheckedFunctionNames(allFunctionNames: seq<string>): (res: set<string>)
    ensures forall p :: p in res ==> p in allFunctionNames
  {
    set defPath | defPath in allFunctionNames && Text.Contains(LastSegment(defPath, "::"), "unchecked")
  }

  /** A path is kept exactly when `unchecked` occurs in the text after its
      last `::` cut, a text that ends the path and holds no `::`. */
  lemma GetUncheckedFunctionNamesSpec(allFunctionNames: seq<string>, p: string)
    requires p in allFunctionNames
    ensures p in GetUncheckedFunctionNames(allFunctionNames) <==>
      exists j :: 0 <= j && OccursAt(LastSegment(p, "::"), "unchecked", j)
    ensures EndsWith(p, LastSegment(p, "::"))
    ensures forall j :: 0 <= j ==> !OccursAt(LastSegment(p, "::"), "::", j)
  {
    ContainsOccurs(LastSegment(p, "::"), "unchecked");
    LastSegmentSpec(p, "::");
  }

  /** A path without `::` is kept exactly when it contains `unchecked`. */
  lemma UncheckedPlainName(p: string)
    requires forall j :: 0 <= j ==> !OccursAt(p, "::", j)
    ensures p in GetUncheckedFunctionNames([p]) <==> Text.Contains(p, "unchecked")
  {
    assert FirstIndex(p, "::").None?;
    assert SplitOn(p, "::") == [p];
  }
}
