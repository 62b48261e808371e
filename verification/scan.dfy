/** Greedy runs of one character class, the building block of `*` and `+`
    over a class that the rest of the pattern cannot start with. */
module Scan {
  import opened Wrappers
  import opened Chars

  datatype CharClass = Spaces | Separators | ValueChars

  predicate InClass(c: char, cls: CharClass) {
    match cls
    case Spaces => IsSpace(c)
    case Separators => IsSeparator(c)
    case ValueChars => IsValueChar(c)
  }

  /** Every character of `text[a..b]` belongs to `cls`. */
  ghost predicate Run(text: string, a: nat, b: nat, cls: CharClass)
    requires a <= b <= |text|
  {
    forall k :: a <= k < b ==> InClass(text[k], cls)
  }

  /** The end of the longest run of `cls` that starts at `from`. */
  function RunEnd(text: string, from: nat, cls: CharClass): (e: nat)
    requires from <= |text|
    ensures from <= e <= |text|
    ensures Run(text, from, e, cls)
    ensures e == |text| || !InClass(text[e], cls)
    decreases |text| - from
  {
    if from == |text| || !InClass(text[from], cls) then from
    else RunEnd(text, from + 1, cls)
  }

  /** A run that cannot be extended is the one `RunEnd` finds. */
  lemma RunEndUnique(text: string, from: nat, e: nat, cls: CharClass)
    requires from <= e <= |text|
    requires Run(text, from, e, cls)
    requires e == |text| || !InClass(text[e], cls)
    ensures RunEnd(text, from, cls) == e
  {
  }

  /** The left-to-right scan `re.search` performs: the first position in
      `from..last` at which `matchAt` succeeds. */
  function FirstFrom<T>(matchAt: nat -> Option<T>, last: nat, from: nat): (r: Option<nat>)
    requires from <= last + 1
    ensures r.None? <==> forall i :: from <= i <= last ==> matchAt(i).None?
    ensures r.Some? ==> && from <= r.value <= last
                        && matchAt(r.value).Some?
                        && forall i :: from <= i < r.value ==> matchAt(i).None?
    decreases last + 1 - from
  {
    if from > last then None
    else if matchAt(from).Some? then Some(from)
    else FirstFrom(matchAt, last, from + 1)
  }
}
