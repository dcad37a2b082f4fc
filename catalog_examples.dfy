/** The catalog of main.py on small provider tables: which names it offers
    and which codes it maps them back to. */
module CatalogExamples {
  import opened Catalog

  /** A code the removal list does not name, checked one line of the
      literal at a time. */
  lemma JapaneseIsKept()
    ensures "ja" !in LanguagesToRemove
  {
    JapaneseNotOnLine1();
    JapaneseNotOnLine2();
    JapaneseNotOnLine3();
    JapaneseNotOnLine4();
    JapaneseNotOnLine5();
    JapaneseNotOnLine6();
  }

  lemma JapaneseNotOnLine1()
    ensures "ja" !in Removed1
  {
  }

  lemma JapaneseNotOnLine2()
    ensures "ja" !in Removed2
  {
  }

  lemma JapaneseNotOnLine3()
    ensures "ja" !in Removed3
  {
  }

  lemma JapaneseNotOnLine4()
    ensures "ja" !in Removed4
  {
  }

  lemma JapaneseNotOnLine5()
    ensures "ja" !in Removed5
  {
  }

  lemma JapaneseNotOnLine6()
    ensures "ja" !in Removed6
  {
  }

  /** A one-item table whose code is kept: the catalog offers that name and
      maps it back to the code. */
  lemma OneKeptLanguage()
    ensures FilteredLanguages([("ja", "japanese")]) == map["ja" := "japanese"]
    ensures GetLanguageCode([("ja", "japanese")], "japanese") == "ja"
    ensures GetLanguageCode([("ja", "japanese")], "klingon") == "klingon"
  {
    var languages := [("ja", "japanese")];
    JapaneseIsKept();
    assert FilteredItems(languages) == languages by {
      assert languages[..0] == [];
    }
    assert FilteredLanguages(languages) == map["ja" := "japanese"] by {
      assert languages[..0] == [];
    }
    assert LanguageMapping(languages) == map["japanese" := "ja"] by {
      assert Swapped(languages) == [("japanese", "ja")];
      assert [("japanese", "ja")][..0] == [];
    }
  }

  /** A removed code disappears from the catalog. */
  lemma OneRemovedLanguage()
    ensures FilteredLanguages([("hy", "armenian")]) == map[]
    ensures GetLanguageCode([("hy", "armenian")], "armenian") == "armenian"
  {
    var languages := [("hy", "armenian")];
    assert "hy" in LanguagesToRemove;
    assert languages[..0] == [];
    assert Keep(languages, LanguagesToRemove) == [];
  }
}
