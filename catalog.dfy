/** The language catalog of main.py: the provider's code -> name table with a
    fixed set of codes removed, the reverse name -> code table derived from it,
    and the lookup with a pass-through fallback.

    The provider's table (googletrans' LANGUAGES) is a parameter: the sequence
    of its (code, name) items in iteration order. A Python dict built by a
    comprehension inserts its items in that order and a later item for a key
    overwrites an earlier one; `Dict` is that left fold. */
module Catalog {

  type Code = string
  type Name = string

  /** The codes removed from the provider's table (main.py:36-43), written
      as the union of the literal's six lines (main.py:37-42): a single
      display of 83 strings is too large for the verifier to rule a code out
      of it. */
  const LanguagesToRemove: set<Code> := Removed1 + Removed2 + Removed3 + Removed4 + Removed5 + Removed6

  const Removed1: set<Code> := {"hy", "az", "eu", "zh-tw", "ny", "nl", "co", "da", "hr", "cs", "eo", "et", "am", "sq", "af"}
  const Removed2: set<Code> := {"ca", "be", "bs", "bg", "ceb", "fi", "fy", "gl", "ka", "el", "ht", "ha", "haw", "hmn"}
  const Removed3: set<Code> := {"hu", "is", "ig", "id", "ga", "kk", "km", "ko", "ku", "ky", "lo", "la", "lv", "lt"}
  const Removed4: set<Code> := {"lb", "mk", "mg", "ms", "mt", "mi", "mn", "my", "no", "ps", "fa", "pl", "ro", "sm"}
  const Removed5: set<Code> := {"gd", "sr", "st", "sn", "si", "sk", "sl", "so", "su", "sw", "sv", "tg", "zu", "yo"}
  const Removed6: set<Code> := {"yi", "xh", "cy", "vi", "ug", "uz", "tr", "uk", "fil", "iw", "or", "sd"}

  /** The first components of `items`. */
  ghost function KeysOf<K, V>(items: seq<(K, V)>): set<K>
  {
    set i | 0 <= i < |items| :: items[i].0
  }

  /** True of the items of a dict: no key occurs twice. */
  ghost predicate DistinctKeys<K, V>(items: seq<(K, V)>)
  {
    forall i, j :: 0 <= i < j < |items| ==> items[i].0 != items[j].0
  }

  /** True of a map no two of whose keys share a value. */
  ghost predicate Injective<K, V>(m: map<K, V>)
  {
    forall k, k' :: k in m && k' in m && k != k' ==> m[k] != m[k']
  }

  /** The dict built by inserting `items` one after another: a later item
      for a key overwrites an earlier one. */
  function Dict<K, V>(items: seq<(K, V)>): (d: map<K, V>)
    ensures d.Keys == KeysOf(items)
    decreases |items|
  {
    if items == [] then map[]
    else
      var prefix, last := items[..|items| - 1], items[|items| - 1];
      assert KeysOf(items) == KeysOf(prefix) + {last.0} by {
        forall k | k in KeysOf(items) ensures k in KeysOf(prefix) + {last.0} {
          var i :| 0 <= i < |items| && items[i].0 == k;
          if i < |prefix| { assert prefix[i] == items[i]; }
        }
        forall k | k in KeysOf(prefix) ensures k in KeysOf(items) {
          var i :| 0 <= i < |prefix| && prefix[i].0 == k;
          assert items[i] == prefix[i];
        }
      }
      Dict(prefix)[last.0 := last.1]
  }

  /** The items whose key is not in `excluded`, in their original order. */
  function Keep<K, V>(items: seq<(K, V)>, excluded: set<K>): (kept: seq<(K, V)>)
    ensures |kept| <= |items|
    ensures forall p :: p in kept ==> p in items && p.0 !in excluded
    ensures forall i :: 0 <= i < |items| && items[i].0 !in excluded ==> items[i] in kept
    decreases |items|
  {
    if items == [] then []
    else
      var prefix, last := items[..|items| - 1], items[|items| - 1];
      assert forall i :: 0 <= i < |prefix| ==> prefix[i] == items[i];
      Keep(prefix, excluded) + (if last.0 in excluded then [] else [last])
  }

  /** Each (key, value) item turned into (value, key). */
  function Swapped<K, V>(items: seq<(K, V)>): (s: seq<(V, K)>)
    ensures |s| == |items|
    ensures forall i :: 0 <= i < |items| ==> s[i] == (items[i].1, items[i].0)
  {
    seq(|items|, i requires 0 <= i < |items| => (items[i].1, items[i].0))
  }

  /** `filtered_languages` in iteration order (main.py:45-47). */
  function FilteredItems(languages: seq<(Code, Name)>): seq<(Code, Name)>
  {
    Keep(languages, LanguagesToRemove)
  }

  /** `filtered_languages` (main.py:45-47): the provider's table without the
      removed codes, and with every other entry unchanged. */
  function FilteredLanguages(languages: seq<(Code, Name)>): (filtered: map<Code, Name>)
    ensures filtered == Dict(languages) - LanguagesToRemove
    ensures forall c :: c in LanguagesToRemove ==> c !in filtered
    ensures forall c :: c in filtered ==> c in Dict(languages) && filtered[c] == Dict(languages)[c]
    ensures forall c :: c in Dict(languages) && c !in LanguagesToRemove ==> c in filtered
  {
    KeepRestrictsDict(languages, LanguagesToRemove);
    Dict(FilteredItems(languages))
  }

  /** `language_mapping` (main.py:48): name -> code over the items of
      `filtered_languages`; when two codes share a name the later one wins. */
  function LanguageMapping(languages: seq<(Code, Name)>): map<Name, Code>
  {
    Dict(Swapped(FilteredItems(languages)))
  }

  /** `get_language_code` (main.py:55-56): the mapped code, or the name
      itself when the name is not in `language_mapping`. */
  function GetLanguageCode(languages: seq<(Code, Name)>, name: Name): (code: Code)
    ensures name in LanguageMapping(languages) ==> code == LanguageMapping(languages)[name]
    ensures name !in LanguageMapping(languages) ==> code == name
    // In terms of the catalog: a name the drop-downs offer gives a kept code
    // carrying that name, and any other name comes back unchanged.
    ensures DistinctKeys(languages) && name in FilteredLanguages(languages).Values ==>
              code in FilteredLanguages(languages) && FilteredLanguages(languages)[code] == name
    ensures DistinctKeys(languages) && name !in FilteredLanguages(languages).Values ==> code == name
  {
    var mapping := LanguageMapping(languages);
    assert DistinctKeys(languages) ==>
             && mapping.Keys == FilteredLanguages(languages).Values
             && (name in mapping ==> mapping[name] in FilteredLanguages(languages)
                                     && FilteredLanguages(languages)[mapping[name]] == name) by {
      if DistinctKeys(languages) {
        InverseKeysAreValues(languages, LanguagesToRemove);
        if name in FilteredLanguages(languages).Values {
          InverseRoundTrip(languages, LanguagesToRemove, name);
        }
      }
    }
    if name in mapping then mapping[name] else name
  }

  // ---------------------------------------------------------------------
  // The dict fold

  /** Every entry of the built dict is one of the items. */
  lemma {:induction false} DictEntryIsItem<K, V>(items: seq<(K, V)>, k: K)
    requires k in Dict(items)
    ensures exists i :: 0 <= i < |items| && items[i] == (k, Dict(items)[k])
    decreases |items|
  {
    var prefix, last := items[..|items| - 1], items[|items| - 1];
    if k == last.0 {
      assert items[|items| - 1] == (k, Dict(items)[k]);
    } else {
      DictEntryIsItem(prefix, k);
      var i :| 0 <= i < |prefix| && prefix[i] == (k, Dict(prefix)[k]);
      assert items[i] == (k, Dict(items)[k]);
    }
  }

  /** Last wins: the item for a key that no later item overwrites is the
      dict's entry for that key. */
  lemma {:induction false} DictLastWins<K, V>(items: seq<(K, V)>, j: int)
    requires 0 <= j < |items|
    requires forall i :: j < i < |items| ==> items[i].0 != items[j].0
    ensures items[j].0 in Dict(items) && Dict(items)[items[j].0] == items[j].1
    decreases |items|
  {
    var prefix := items[..|items| - 1];
    if j < |items| - 1 {
      assert forall i :: j < i < |prefix| ==> prefix[i] == items[i];
      DictLastWins(prefix, j);
      assert prefix[j] == items[j];
    }
  }

  /** With distinct keys every item is an entry of the dict. */
  lemma DictOfDistinctKeys<K, V>(items: seq<(K, V)>, i: int)
    requires DistinctKeys(items)
    requires 0 <= i < |items|
    ensures items[i].0 in Dict(items) && Dict(items)[items[i].0] == items[i].1
  {
    DictLastWins(items, i);
  }

  /** Filtering the items before building the dict is removing the excluded
      keys from the dict built from all of them. */
  lemma {:induction false} KeepRestrictsDict<K, V>(items: seq<(K, V)>, excluded: set<K>)
    ensures Dict(Keep(items, excluded)) == Dict(items) - excluded
    decreases |items|
  {
    if items != [] {
      var prefix, last := items[..|items| - 1], items[|items| - 1];
      var keptPrefix := Keep(prefix, excluded);
      KeepRestrictsDict(prefix, excluded);
      if last.0 in excluded {
        assert Keep(items, excluded) == keptPrefix;
        UpdateExcludedKey(Dict(prefix), last.0, last.1, excluded);
      } else {
        var kept := keptPrefix + [last];
        assert Keep(items, excluded) == kept;
        assert kept[..|kept| - 1] == keptPrefix;
        UpdateKeptKey(Dict(prefix), last.0, last.1, excluded);
      }
    }
  }

  lemma UpdateExcludedKey<K, V>(m: map<K, V>, k: K, v: V, excluded: set<K>)
    requires k in excluded
    ensures m[k := v] - excluded == m - excluded
  {
    assert (m[k := v] - excluded).Keys == (m - excluded).Keys;
  }

  lemma UpdateKeptKey<K, V>(m: map<K, V>, k: K, v: V, excluded: set<K>)
    requires k !in excluded
    ensures m[k := v] - excluded == (m - excluded)[k := v]
  {
    assert (m[k := v] - excluded).Keys == ((m - excluded)[k := v]).Keys;
  }

  lemma SplitLast<T>(a: seq<T>, b: seq<T>)
    requires b != []
    ensures b == b[..|b| - 1] + [b[|b| - 1]]
    ensures a + b == (a + b[..|b| - 1]) + [b[|b| - 1]]
  {
  }

  lemma ConcatAssoc<T>(x: seq<T>, y: seq<T>, z: seq<T>)
    ensures (x + y) + z == x + (y + z)
  {
  }

  /** Filtering one more item at the end. */
  lemma KeepSnoc<K, V>(items: seq<(K, V)>, last: (K, V), excluded: set<K>)
    ensures Keep(items + [last], excluded)
         == Keep(items, excluded) + (if last.0 in excluded then [] else [last])
  {
    assert (items + [last])[..|items|] == items;
  }

  /** The filter keeps the order of the items: filtering a concatenation is
      concatenating the filtered parts. */
  lemma {:induction false} KeepAppend<K, V>(a: seq<(K, V)>, b: seq<(K, V)>, excluded: set<K>)
    ensures Keep(a + b, excluded) == Keep(a, excluded) + Keep(b, excluded)
    decreases |b|
  {
    if b == [] {
      assert a + b == a;
    } else {
      var prefix, last := b[..|b| - 1], b[|b| - 1];
      var tail := if last.0 in excluded then [] else [last];
      SplitLast(a, b);
      KeepSnoc(a + prefix, last, excluded);
      KeepSnoc(prefix, last, excluded);
      KeepAppend(a, prefix, excluded);
      ConcatAssoc(Keep(a, excluded), Keep(prefix, excluded), tail);
    }
  }

  /** The filter around one item: what it keeps before the item, the item
      itself unless its key is excluded, and what it keeps after it. */
  lemma KeepAround<K, V>(items: seq<(K, V)>, excluded: set<K>, j: int)
    requires 0 <= j < |items|
    ensures Keep(items, excluded)
         == Keep(items[..j], excluded) + (if items[j].0 in excluded then [] else [items[j]])
            + Keep(items[j + 1..], excluded)
  {
    var before, after := items[..j], items[j + 1..];
    assert items == (before + [items[j]]) + after;
    KeepAppend(before + [items[j]], after, excluded);
    assert (before + [items[j]])[..j] == before;
  }

  // ---------------------------------------------------------------------
  // A filtered dict and its inverse, for any set of excluded keys

  /** Last wins through the filter and the inversion: a kept item whose value
      no later kept item carries is the inverted dict's entry for that value. */
  lemma KeptLastWins<K, V>(items: seq<(K, V)>, excluded: set<K>, j: int)
    requires 0 <= j < |items| && items[j].0 !in excluded
    requires forall i :: j < i < |items| && items[i].0 !in excluded ==> items[i].1 != items[j].1
    ensures items[j].1 in Dict(Swapped(Keep(items, excluded)))
    ensures Dict(Swapped(Keep(items, excluded)))[items[j].1] == items[j].0
  {
    var kept, keptAfter := Keep(items, excluded), Keep(items[j + 1..], excluded);
    var n := |Keep(items[..j], excluded)|;
    KeepAround(items, excluded, j);
    assert kept[n] == items[j];
    forall i | n < i < |kept| ensures Swapped(kept)[i].0 != Swapped(kept)[n].0 {
      assert kept[i] == keptAfter[i - n - 1];
      LaterKeptItem(items, excluded, j, kept[i]);
    }
    DictLastWins(Swapped(kept), n);
  }

  lemma LaterKeptItem<K, V>(items: seq<(K, V)>, excluded: set<K>, j: int, p: (K, V))
    requires 0 <= j < |items|
    requires forall i :: j < i < |items| && items[i].0 !in excluded ==> items[i].1 != items[j].1
    requires p in Keep(items[j + 1..], excluded)
    ensures p.1 != items[j].1
  {
    var m :| 0 <= m < |items[j + 1..]| && items[j + 1..][m] == p;
    assert items[j + 1 + m] == p;
  }

  /** An item kept by the filter is an entry of the filtered dict. */
  lemma KeptItemIsEntry<K, V>(items: seq<(K, V)>, excluded: set<K>, i: int)
    requires DistinctKeys(items)
    requires 0 <= i < |Keep(items, excluded)|
    ensures Keep(items, excluded)[i].0 in Dict(items) - excluded
    ensures (Dict(items) - excluded)[Keep(items, excluded)[i].0] == Keep(items, excluded)[i].1
  {
    var p := Keep(items, excluded)[i];
    assert p in Keep(items, excluded);
    var m :| 0 <= m < |items| && items[m] == p;
    DictOfDistinctKeys(items, m);
  }

  /** The keys of the inverted filtered dict are the values of the filtered
      dict. */
  lemma InverseKeysAreValues<K, V>(items: seq<(K, V)>, excluded: set<K>)
    requires DistinctKeys(items)
    ensures Dict(Swapped(Keep(items, excluded))).Keys == (Dict(items) - excluded).Values
  {
    var kept := Keep(items, excluded);
    var filtered := Dict(items) - excluded;
    KeepRestrictsDict(items, excluded);
    forall v | v in Dict(Swapped(kept)) ensures v in filtered.Values {
      var i :| 0 <= i < |Swapped(kept)| && Swapped(kept)[i].0 == v;
      KeptItemIsEntry(items, excluded, i);
      assert filtered[kept[i].0] == v;
    }
    forall v | v in filtered.Values ensures v in Dict(Swapped(kept)) {
      var k :| k in filtered && filtered[k] == v;
      DictEntryIsItem(kept, k);
      var i :| 0 <= i < |kept| && kept[i] == (k, v);
      assert Swapped(kept)[i].0 == v;
    }
  }

  /** A value of the filtered dict maps, in the inverted dict, to a
      non-excluded key whose entry carries that value. */
  lemma InverseRoundTrip<K, V>(items: seq<(K, V)>, excluded: set<K>, v: V)
    requires DistinctKeys(items)
    requires v in (Dict(items) - excluded).Values
    ensures v in Dict(Swapped(Keep(items, excluded)))
    ensures Dict(Swapped(Keep(items, excluded)))[v] in Dict(items) - excluded
    ensures (Dict(items) - excluded)[Dict(Swapped(Keep(items, excluded)))[v]] == v
  {
    var kept := Keep(items, excluded);
    InverseKeysAreValues(items, excluded);
    DictEntryIsItem(Swapped(kept), v);
    var j :| 0 <= j < |kept| && Swapped(kept)[j] == (v, Dict(Swapped(kept))[v]);
    KeptItemIsEntry(items, excluded, j);
  }

  // ---------------------------------------------------------------------
  // Properties of the catalog

  /** The names of `language_mapping` are exactly the names of
      `filtered_languages`. */
  lemma MappingKeysAreFilteredNames(languages: seq<(Code, Name)>)
    requires DistinctKeys(languages)
    ensures LanguageMapping(languages).Keys == FilteredLanguages(languages).Values
  {
    InverseKeysAreValues(languages, LanguagesToRemove);
  }

  /** A name offered by the catalog maps back to a kept code of the
      provider's table that carries that name. */
  lemma FilteredNameRoundTrip(languages: seq<(Code, Name)>, name: Name)
    requires DistinctKeys(languages)
    requires name in FilteredLanguages(languages).Values
    ensures GetLanguageCode(languages, name) in FilteredLanguages(languages)
    ensures FilteredLanguages(languages)[GetLanguageCode(languages, name)] == name
    ensures GetLanguageCode(languages, name) !in LanguagesToRemove
    ensures GetLanguageCode(languages, name) in Dict(languages)
    ensures Dict(languages)[GetLanguageCode(languages, name)] == name
  {
    InverseRoundTrip(languages, LanguagesToRemove, name);
  }

  /** When the offered names are unique, looking up the name of a kept code
      gives that code back. */
  lemma FilteredCodeRoundTrip(languages: seq<(Code, Name)>, code: Code)
    requires DistinctKeys(languages)
    requires Injective(FilteredLanguages(languages))
    requires code in FilteredLanguages(languages)
    ensures GetLanguageCode(languages, FilteredLanguages(languages)[code]) == code
  {
    FilteredNameRoundTrip(languages, FilteredLanguages(languages)[code]);
  }

  /** A name the catalog does not offer is passed through as the code. */
  lemma UnknownNamePassesThrough(languages: seq<(Code, Name)>, name: Name)
    requires DistinctKeys(languages)
    requires name !in FilteredLanguages(languages).Values
    ensures GetLanguageCode(languages, name) == name
  {
    MappingKeysAreFilteredNames(languages);
  }

  /** When two kept codes share a name, the mapping keeps the one that comes
      later in the provider's iteration order. */
  lemma MappingKeepsLastCode(languages: seq<(Code, Name)>, j: int)
    requires 0 <= j < |languages|
    requires languages[j].0 !in LanguagesToRemove
    requires forall i :: j < i < |languages| && languages[i].0 !in LanguagesToRemove ==>
               languages[i].1 != languages[j].1
    ensures GetLanguageCode(languages, languages[j].1) == languages[j].0
  {
    KeptLastWins(languages, LanguagesToRemove, j);
  }
}
