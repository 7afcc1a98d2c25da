/** The check of android/package.py that every library of a driver is there and stripped. */
module PackageGate {
  import opened Elf
  import opened ElfTheorems

  datatype Option<T> = None | Some(value: T)

  /** What package.py says about a driver's library. */
  datatype Verdict =
    | Passed
    | Missing
    | NotStripped(shown: seq<string>)
    | Unreadable(error: Failure)

  function VerdictOn(lib: Option<seq<Byte>>): Verdict {
    match lib
    case None => Missing
    case Some(data) =>
      match Reading(data)
      case Err(e) => Unreadable(e)
      case Ok(left) => if left == [] then Passed else NotStripped(left[..Min(4, |left|)])
  }

  /** A library that is there, can be read and has nothing left to strip. */
  ghost predicate Clean(lib: Option<seq<Byte>>) {
    lib.Some? && Reading(lib.value) == Ok([])
  }

  /** One round of the checking loop: what each verdict means. */
  method CheckLibrary(lib: Option<seq<Byte>>) returns (v: Verdict)
    ensures v == VerdictOn(lib)
    ensures v == Missing <==> lib.None?
    ensures v == Passed <==> Clean(lib)
    ensures v.Unreadable? <==> lib.Some? && Reading(lib.value).Err?
    ensures v.Unreadable? ==> Reading(lib.value) == Err(v.error)
    ensures v.NotStripped? ==>
      && lib.Some? && Reading(lib.value).Ok?
      && var left := Reading(lib.value).value;
         left != [] && v.shown <= left && |v.shown| == if |left| < 4 then |left| else 4
  {
    if lib.None? {
      return Missing;
    }
    var r := UnstrippedSections(lib.value);
    if r.Err? {
      return Unreadable(r.error);
    }
    if r.value != [] {
      return NotStripped(r.value[..Min(4, |r.value|)]);
    }
    return Passed;
  }

  /** The verdict on a well-formed library, from its section names: passed if none is strippable, else
      not stripped, with the first four strippable names, or all if there are fewer. */
  lemma VerdictOnWellFormed(data: seq<Byte>, l: Layout, names: seq<seq<Byte>>)
    requires HasSections(data, l, names)
    ensures var left := Strippable(names);
      VerdictOn(Some(data))
      == if left == [] then Passed
         else NotStripped(DecodeAll(if |left| < 4 then left else left[..4]))
  {
    var left := Strippable(names);
    ReaderIsExact(data, l, names);
    assert DecodeAll(left)[..Min(4, |left|)] == DecodeAll(if |left| < 4 then left else left[..4]);
  }

  lemma {:induction false} NothingStrippable(names: seq<seq<Byte>>)
    ensures Strippable(names) == [] <==> forall i | 0 <= i < |names| :: !IsStrippable(names[i])
  {
    if names != [] {
      var front := names[..|names| - 1];
      NothingStrippable(front);
      assert forall i | 0 <= i < |front| :: front[i] == names[i];
    }
  }

  /** A well-formed library passes exactly when it has no symbol-table and no debug section. */
  lemma PassedMeansStripped(data: seq<Byte>, l: Layout, names: seq<seq<Byte>>)
    requires HasSections(data, l, names)
    ensures VerdictOn(Some(data)) == Passed <==> forall i | 0 <= i < |names| :: !IsStrippable(names[i])
  {
    VerdictOnWellFormed(data, l, names);
    NothingStrippable(names);
  }

  // ---------------------------------------------------------------- all libraries

  function Verdicts(libs: seq<Option<seq<Byte>>>): (vs: seq<Verdict>)
    ensures |vs| == |libs|
    ensures forall i {:trigger VerdictOn(libs[i])} | 0 <= i < |libs| :: vs[i] == VerdictOn(libs[i])
  {
    seq(|libs|, i requires 0 <= i < |libs| => VerdictOn(libs[i]))
  }

  /** The first library that does not pass is the one at `index`, with the verdict `v`; or all pass. */
  ghost predicate IsFirstProblem(vs: seq<Verdict>, v: Verdict, index: nat) {
    && index <= |vs|
    && (forall i | 0 <= i < index :: vs[i] == Passed)
    && (v == Passed <==> index == |vs|)
    && (index < |vs| ==> v == vs[index])
  }

  lemma PassedSoFar(vs: seq<Verdict>, n: nat)
    requires n < |vs| && (forall i | 0 <= i < n :: vs[i] == Passed) && vs[n] == Passed
    ensures forall i | 0 <= i < n + 1 :: vs[i] == Passed
  {
  }

  lemma PassedIsClean(libs: seq<Option<seq<Byte>>>, i: nat)
    requires i < |libs|
    ensures Verdicts(libs)[i] == Passed <==> Clean(libs[i])
  {
    assert Verdicts(libs)[i] == VerdictOn(libs[i]);
  }

  /** The loop that checks every library before anything is packaged: it passes only if no library is
      missing, unreadable or unstripped, and otherwise reports the first that is. */
  method CheckLibraries(libs: seq<Option<seq<Byte>>>) returns (v: Verdict, index: nat)
    ensures IsFirstProblem(Verdicts(libs), v, index)
    ensures v == Passed ==> forall i | 0 <= i < |libs| :: Clean(libs[i])
    ensures v != Passed ==> index < |libs| && !Clean(libs[index])
  {
    ghost var vs := Verdicts(libs);
    index := 0;
    while index < |libs|
      invariant index <= |libs|
      invariant forall i | 0 <= i < index :: vs[i] == Passed
    {
      v := CheckLibrary(libs[index]);
      assert v == vs[index];
      if v != Passed {
        return;
      }
      PassedSoFar(vs, index);
      index := index + 1;
    }
    v := Passed;
    forall i | 0 <= i < |libs| ensures Clean(libs[i]) {
      PassedIsClean(libs, i);
    }
  }
}
