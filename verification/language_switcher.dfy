/** The language menu (components/language-switcher.tsx): which entry is
    marked as the current language, and the path navigated to when another
    language is picked. */
module LanguageSwitcher {
  import opened Text

  /** One menu entry. */
  datatype Language = Language(code: string, name: string, flag: string, nativeName: string)

  /** The two languages on offer (lines 7-10). */
  const Languages: seq<Language> := [
    Language("en", "English", "\U{1F1FA}\U{1F1F8}", "English"),
    Language("ko", "Korean", "\U{1F1F0}\U{1F1F7}", "\U{D55C}\U{AD6D}\U{C5B4}")
  ]

  /** An entry is highlighted and ticked iff it is the current locale
      (lines 32, 41). */
  predicate IsActive(locale: string, language: Language)
  {
    locale == language.code
  }

  /** The codes are distinct, so at most one entry is marked; a supported
      locale marks exactly one. */
  lemma AtMostOneActive(locale: string)
    ensures forall i, j ::
      (0 <= i < |Languages| && 0 <= j < |Languages| &&
       IsActive(locale, Languages[i]) && IsActive(locale, Languages[j])) ==> i == j
    ensures locale == "en" || locale == "ko" ==>
      exists i :: 0 <= i < |Languages| && IsActive(locale, Languages[i])
  {
    assert Languages[0].code == "en" && Languages[1].code == "ko";
    if locale == "en" {
      assert IsActive(locale, Languages[0]);
    } else if locale == "ko" {
      assert IsActive(locale, Languages[1]);
    }
  }

  /** `pathname.replace('/' + locale, '') || '/'` (line 19): the first
      occurrence of "/locale", wherever it is, is cut out, and an empty
      result becomes "/". */
  function StripLocale(pathname: string, locale: string): (r: string)
    ensures r != ""
  {
    var cut := ReplaceFirst(pathname, "/" + locale, "");
    if cut == "" then "/" else cut
  }

  /** `'/' + newLocale + pathWithoutLocale` (line 22). */
  function TargetPath(pathname: string, locale: string, newLocale: string): (r: string)
    ensures |r| > |newLocale| + 1
    ensures r[..|newLocale| + 1] == "/" + newLocale
  {
    "/" + newLocale + StripLocale(pathname, locale)
  }

  /** A path without "/locale" in it is kept whole after the new prefix. */
  lemma TargetWithoutLocale(pathname: string, locale: string, newLocale: string)
    requires pathname != ""
    requires forall j: nat :: !MatchAt(pathname, "/" + locale, j)
    ensures TargetPath(pathname, locale, newLocale) == "/" + newLocale + pathname
  {
    ReplaceFirstNoMatch(pathname, "/" + locale, "");
  }

  /** A path under the current locale moves under the new one. */
  lemma TargetUnderLocale(locale: string, rest: string, newLocale: string)
    requires rest != ""
    ensures TargetPath("/" + locale + rest, locale, newLocale) == "/" + newLocale + rest
  {
    ReplaceFirstPrefix("/" + locale, rest, "");
    assert "" + rest == rest;
  }

  /** The locale's home page moves to the new locale's home page with a
      trailing slash. */
  lemma TargetOfLocaleHome(locale: string, newLocale: string)
    ensures TargetPath("/" + locale, locale, newLocale) == "/" + newLocale + "/"
  {
    ReplaceFirstPrefix("/" + locale, "", "");
    assert "/" + locale + "" == "/" + locale;
  }

  /** Switching to another language and back returns to the same page,
      except that the home page comes back with a trailing slash. */
  lemma SwitchBack(a: string, b: string, rest: string)
    ensures rest != "" ==> TargetPath(TargetPath("/" + a + rest, a, b), b, a) == "/" + a + rest
    ensures TargetPath(TargetPath("/" + a, a, b), b, a) == "/" + a + "/"
  {
    if rest != "" {
      TargetUnderLocale(a, rest, b);
      TargetUnderLocale(b, rest, a);
    }
    TargetOfLocaleHome(a, b);
    TargetUnderLocale(b, "/", a);
  }

  /** The cut is not tied to the start of the path or to a whole segment:
      "/en" inside a later segment is the part removed. */
  lemma CutInLaterSegment()
    ensures TargetPath("/ko/enter", "en", "ko") == "/ko/koter"
  {
    var s := "/ko/enter";
    assert "/" + "en" == "/en";
    forall j | 0 <= j < 3
      ensures !MatchAt(s, "/en", j)
    {
      assert s[j..j + 3][1] == s[j + 1];
    }
    assert s[3..6] == "/en";
    ReplaceFirstAt(s, "/en", "", 3);
    assert s[..3] + "" + s[6..] == "/koter";
  }

  /** Nor does it stop at a segment boundary: "/en" at the start of a
      longer segment is removed. */
  lemma CutInsideSegment()
    ensures TargetPath("/english", "en", "ko") == "/koglish"
  {
    assert "/" + "en" == "/en";
    ReplaceFirstPrefix("/en", "glish", "");
    assert "/en" + "glish" == "/english";
    assert "" + "glish" == "glish";
  }
}
