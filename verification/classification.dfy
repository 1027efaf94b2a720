/** Laureate records and their coarse STEM / Non-STEM grouping
    (main.js:35-44). */
module Classification {
  import opened Basics

  /** One parsed CSV row. The year has already been converted to a number
      and the full name copied to `name`. */
  datatype Laureate = Laureate(name: string, year: int, category: string)

  /** The value the classification loop leaves in a record's
      `categoryGroup`: one of the two labels, or nothing at all
      (`Unassigned`, JavaScript's `undefined`) when the category is in
      neither list. */
  datatype Group = Stem | NonStem | Unassigned

  const StemCategories: seq<string> := ["physics", "chemistry", "medicine"]
  const NonStemCategories: seq<string> := ["literature", "peace", "economics"]

  /** The group a category falls into. The STEM list is consulted first;
      a category in neither list gets no group. */
  function Classify(category: string): (g: Group)
    ensures g == Stem <==>
              category == "physics" || category == "chemistry" || category == "medicine"
    ensures g == NonStem <==>
              category == "literature" || category == "peace" || category == "economics"
    ensures g == Unassigned <==>
              category !in StemCategories && category !in NonStemCategories
  {
    if category in StemCategories then Stem
    else if category in NonStemCategories then NonStem
    else Unassigned
  }

  /** The two lists share no category, so consulting the non-STEM list first
      would classify every category in the same way. */
  lemma ClassificationOrderIrrelevant(category: string)
    ensures forall c :: c in StemCategories ==> c !in NonStemCategories
    ensures Classify(category) ==
              if category in NonStemCategories then NonStem
              else if category in StemCategories then Stem
              else Unassigned
  {
  }

  /** The group key of a record after the classification loop has run. */
  function GroupOf(d: Laureate): Group {
    Classify(d.category)
  }

  /** The string a group carries in the source: the value of
      `categoryGroup`, or `undefined` for an unassigned record. */
  function Label(g: Group): (s: Option<string>)
    ensures s == Some("STEM") <==> g == Stem
    ensures s == Some("Non-STEM") <==> g == NonStem
    ensures s.None? <==> g == Unassigned
  {
    match g
    case Stem => Some("STEM")
    case NonStem => Some("Non-STEM")
    case Unassigned => None
  }

  /** Distinct groups carry distinct labels, so keying by group and keying by
      the source's label string bucket records identically. */
  lemma LabelInjective(g: Group, h: Group)
    ensures Label(g) == Label(h) <==> g == h
  {
  }
}
