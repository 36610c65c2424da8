/** The category grid (components/category-filter.tsx): the icon and
    colour configuration looked up by lower-cased category name with a
    fallback, the selection tests, and the clear button, which calls the
    toggle callback once per selected category. */
module CategoryFilter {
  import opened Types
  import opened Text
  import FilterUpdates

  /** The react-icons components the table refers to. */
  datatype Icon =
    | BiSolidWine
    | FaBaby
    | GiSlicedBread
    | FaPaintBrush
    | GiChocolateBar
    | FaCheese
    | GiMilkCarton
    | FaGlassMartiniAlt
    | GiFlowerPot
    | FaSnowflake
    | FaHome
    | GiMeat
    | MdLocalPharmacy
    | GiCampingTent
    | GiFlour
    | FaShower
    | MdPets
    | GiHotMeal
    | GiTomato
    | GiFishCorpse
    | GiPopcorn
    | GiPill
    | FaTv
    | MdLocalGroceryStore
    | FaHeartbeat
    | FaGamepad
    | FaTshirt
    | FaCar
    | FaBook
    | FaBox

  /** `{ icon, color, bgColor }`. */
  datatype Config = Config(icon: Icon, color: string, bgColor: string)

  /** The configuration table, keyed by lower-case category name; the
      misspellings found in the data (diary, medecine, viatamin) have
      entries of their own. */
  const Table: map<string, Config> := map[
      "alcohol" := Config(BiSolidWine, "text-purple-600", "bg-purple-50 hover:bg-purple-100"),
      "baby" := Config(FaBaby, "text-pink-600", "bg-pink-50 hover:bg-pink-100"),
      "bakery" := Config(GiSlicedBread, "text-amber-600", "bg-amber-50 hover:bg-amber-100"),
      "beauty" := Config(FaPaintBrush, "text-rose-600", "bg-rose-50 hover:bg-rose-100"),
      "candy" := Config(GiChocolateBar, "text-indigo-600", "bg-indigo-50 hover:bg-indigo-100"),
      "deli" := Config(FaCheese, "text-orange-600", "bg-orange-50 hover:bg-orange-100"),
      "diary" := Config(GiMilkCarton, "text-blue-500", "bg-blue-50 hover:bg-blue-100"),
      "dairy" := Config(GiMilkCarton, "text-blue-500", "bg-blue-50 hover:bg-blue-100"),
      "drinks" := Config(FaGlassMartiniAlt, "text-purple-500", "bg-purple-50 hover:bg-purple-100"),
      "flowers" := Config(GiFlowerPot, "text-pink-600", "bg-pink-50 hover:bg-pink-100"),
      "frozen" := Config(FaSnowflake, "text-cyan-600", "bg-cyan-50 hover:bg-cyan-100"),
      "household" := Config(FaHome, "text-slate-600", "bg-slate-50 hover:bg-slate-100"),
      "meat" := Config(GiMeat, "text-red-700", "bg-red-50 hover:bg-red-100"),
      "medecine" := Config(MdLocalPharmacy, "text-teal-600", "bg-teal-50 hover:bg-teal-100"),
      "medicine" := Config(MdLocalPharmacy, "text-teal-600", "bg-teal-50 hover:bg-teal-100"),
      "outdoor" := Config(GiCampingTent, "text-green-700", "bg-green-50 hover:bg-green-100"),
      "pantry" := Config(GiFlour, "text-yellow-700", "bg-yellow-50 hover:bg-yellow-100"),
      "personal" := Config(FaShower, "text-purple-600", "bg-purple-50 hover:bg-purple-100"),
      "personal_care" := Config(FaShower, "text-purple-600", "bg-purple-50 hover:bg-purple-100"),
      "pet" := Config(MdPets, "text-orange-700", "bg-orange-50 hover:bg-orange-100"),
      "pets" := Config(MdPets, "text-orange-700", "bg-orange-50 hover:bg-orange-100"),
      "prepared" := Config(GiHotMeal, "text-red-600", "bg-red-50 hover:bg-red-100"),
      "produce" := Config(GiTomato, "text-green-600", "bg-green-50 hover:bg-green-100"),
      "seafood" := Config(GiFishCorpse, "text-blue-600", "bg-blue-50 hover:bg-blue-100"),
      "snacks" := Config(GiPopcorn, "text-yellow-600", "bg-yellow-50 hover:bg-yellow-100"),
      "viatamin" := Config(GiPill, "text-emerald-600", "bg-emerald-50 hover:bg-emerald-100"),
      "vitamin" := Config(GiPill, "text-emerald-600", "bg-emerald-50 hover:bg-emerald-100"),
      "electronics" := Config(FaTv, "text-blue-600", "bg-blue-50 hover:bg-blue-100"),
      "grocery" := Config(MdLocalGroceryStore, "text-green-600", "bg-green-50 hover:bg-green-100"),
      "health" := Config(FaHeartbeat, "text-red-600", "bg-red-50 hover:bg-red-100"),
      "pharmacy" := Config(MdLocalPharmacy, "text-teal-600", "bg-teal-50 hover:bg-teal-100"),
      "toys" := Config(FaGamepad, "text-purple-600", "bg-purple-50 hover:bg-purple-100"),
      "apparel" := Config(FaTshirt, "text-indigo-600", "bg-indigo-50 hover:bg-indigo-100"),
      "automotive" := Config(FaCar, "text-gray-700", "bg-gray-50 hover:bg-gray-100"),
      "books" := Config(FaBook, "text-amber-700", "bg-amber-50 hover:bg-amber-100"),
      "floral" := Config(GiFlowerPot, "text-pink-600", "bg-pink-50 hover:bg-pink-100"),
      "other" := Config(FaBox, "text-gray-600", "bg-gray-50 hover:bg-gray-100")
    ]

  /** The configuration used for a name not in the table. */
  const Fallback: Config := Config(FaBox, "text-gray-600", "bg-gray-50 hover:bg-gray-100")

  /** `categoryConfig[category.toLowerCase()] || fallback`: every entry is
      a non-null object, so the fallback is taken exactly for a missing key.
      The result is always one of the table's configurations. */
  function GetCategoryConfig(category: string): (c: Config)
    ensures c in Table.Values
    ensures ToLower(category) in Table ==> c == Table[ToLower(category)]
    ensures ToLower(category) !in Table ==> c == Fallback
  {
    var key := ToLower(category);
    assert "other" in Table;
    if key in Table then Table[key] else Fallback
  }

  /** Names that differ only in the case of ASCII letters share a
      configuration; in particular a name and its lower-case form do. */
  lemma ConfigIgnoresCase(a: string, b: string)
    ensures GetCategoryConfig(ToLower(a)) == GetCategoryConfig(a)
    ensures ToLower(a) == ToLower(b) ==> GetCategoryConfig(a) == GetCategoryConfig(b)
  {
    ToLowerIdempotent(a);
  }

  lemma DairyAnyCase()
    ensures GetCategoryConfig("Dairy") == GetCategoryConfig("dairy") == Table["dairy"]
  {
    assert ToLower("Dairy") == "dairy";
    assert ToLower("dairy") == "dairy";
  }

  /** An unknown name gets the fallback, which is exactly the "other" entry. */
  lemma UnknownIsOther(category: string)
    requires ToLower(category) !in Table
    ensures GetCategoryConfig(category) == Fallback == Table["other"]
  {
  }

  /** The misspelled keys give the same configuration as the right spelling. */
  lemma DiaryIsDairy()
    ensures Table["diary"] == Table["dairy"]
  {
  }

  lemma MedecineIsMedicine()
    ensures Table["medecine"] == Table["medicine"]
  {
  }

  lemma ViataminIsVitamin()
    ensures Table["viatamin"] == Table["vitamin"]
  {
  }

  // ---------------------------------------------------------------------
  // Selection (components/category-filter.tsx:124-127, 135, 174-176)
  // ---------------------------------------------------------------------

  /** `selectedCategories.includes(category)`. */
  predicate IsSelected(selected: seq<string>, category: string)
  {
    category in selected
  }

  /** The "N selected" badge: absent for an empty selection, otherwise the
      length of the selection list. */
  function SelectedCounter(selected: seq<string>): (n: Option<nat>)
    ensures n.None? <==> selected == []
    ensures n.Some? ==> n.value == |selected| && n.value >= 1
  {
    if |selected| > 0 then Some(|selected|) else None
  }

  /** Toggles applied one after the other, each to the list the previous
      one produced (a caller whose toggle is FilterUpdates.Toggle). The
      clear button (line 176) emits one toggle per entry of the selection,
      in list order, so its events are the selection itself. */
  function ApplyToggles(categories: seq<string>, events: seq<string>): seq<string>
    decreases |events|
  {
    if events == [] then categories
    else ApplyToggles(FilterUpdates.Toggle(categories, events[0]), events[1..])
  }

  predicate NoDuplicates(s: seq<string>)
  {
    forall i, j :: 0 <= i < j < |s| ==> s[i] != s[j]
  }

  /** Without duplicates, the head does not recur and the tail has no
      duplicates either. */
  lemma NoDuplicatesTail(s: seq<string>)
    requires s != [] && NoDuplicates(s)
    ensures s[0] !in s[1..]
    ensures NoDuplicates(s[1..])
  {
    var rest := s[1..];
    forall k | 0 <= k < |rest| ensures rest[k] != s[0] {
      assert rest[k] == s[k + 1];
    }
    forall i, j | 0 <= i < j < |rest| ensures rest[i] != rest[j] {
      assert rest[i] == s[i + 1] && rest[j] == s[j + 1];
    }
  }

  /** Toggling the head of a duplicate-free list removes exactly it. */
  lemma ToggleHead(s: seq<string>)
    requires s != [] && s[0] !in s[1..]
    ensures FilterUpdates.Toggle(s, s[0]) == s[1..]
  {
    var c, rest := s[0], s[1..];
    assert s == [c] + rest;
    FilterUpdates.WithoutAppend([c], rest, c);
    FilterUpdates.WithoutAbsent(rest, c);
    assert FilterUpdates.Without([c], c) == [];
  }

  /** For a selection without duplicates, the clear button's toggles empty
      it: each one removes the category at the front. */
  lemma {:induction false} ClearEmptiesSelection(selected: seq<string>)
    requires NoDuplicates(selected)
    ensures ApplyToggles(selected, selected) == []
  {
    if selected != [] {
      var rest := selected[1..];
      NoDuplicatesTail(selected);
      ToggleHead(selected);
      ClearEmptiesSelection(rest);
    }
  }

  /** With a duplicate, clearing by toggles leaves the category selected:
      the first toggle removes both copies, the second appends it again. */
  lemma ClearWithDuplicateKeepsOne()
    ensures ApplyToggles(["a", "a"], ["a", "a"]) == ["a"]
  {
    assert ["a", "a"][1..] == ["a"];
    assert FilterUpdates.Toggle(["a", "a"], "a") == [];
    assert FilterUpdates.Toggle([], "a") == ["a"];
    assert ["a", "a"][1..][1..] == [];
  }
}
