/**
 * Reading the configured default locale from the Rails configuration line
 * `config.i18n.default_locale = :xx`. The regular-expression search that finds
 * the line is not modelled: the matched line is the input.
 */
module RailsConfig {
  import opened Wrappers
  import opened Text

  /** The characters `replace(/\:|\ |\'|\"/g, "")` deletes. */
  const RemovedChars: set<char> := {':', ' ', '\'', '"'}

  /**
   * `lineText.trim().split("=")[1].replace(…, "").trim()`: the field between the
   * first and the second `=` of the trimmed line, without colons, spaces and
   * quotes, trimmed. A line without `=` has no second field; calling `replace`
   * on `undefined` throws, which is `None` here.
   */
  function LocaleFromLine(lineText: string): (r: Option<string>)
    ensures r.None? <==> '=' !in Trim(lineText)
    ensures r.Some? ==> forall k | 0 <= k < |r.value| :: r.value[k] !in RemovedChars
    ensures r.Some? && r.value != [] ==> !IsWhiteSpace(r.value[0]) && !IsWhiteSpace(r.value[|r.value| - 1])
    ensures r.Some? ==> '=' !in r.value
  {
    var fields := Split(Trim(lineText), '=');
    SplitFields(Trim(lineText), '=');
    if |fields| < 2 then None
    else
      var cleaned := RemoveChars(fields[1], RemovedChars);
      TrimKeeps(cleaned, RemovedChars);
      RemoveCharsKeeps(fields[1], RemovedChars, '=');
      TrimKeeps(cleaned, {'='});
      Some(Trim(cleaned))
  }

  /** What `detectConfigurationInDocument` does: no matching line, an exception, or a locale (possibly empty). */
  datatype Detection = NoMatch | Threw | Found(locale: string)

  /**
   * `detectConfigurationInDocument`, given the line the search matched (`None`
   * when the search gives -1).
   */
  function DetectConfigurationInDocument(matchedLine: Option<string>): (r: Detection)
    ensures r.NoMatch? <==> matchedLine.None?
    ensures r.Threw? <==> matchedLine.Some? && '=' !in Trim(matchedLine.value)
    ensures r.Found? ==> LocaleFromLine(matchedLine.value) == Some(r.locale)
  {
    match matchedLine
    case None => NoMatch
    case Some(line) =>
      match LocaleFromLine(line)
      case None => Threw
      case Some(locale) => Found(locale)
  }

  /** How the promise of `detectConfigurationInUri` settles. */
  datatype Outcome = Resolved(locale: string) | Rejected

  /**
   * `detectConfigurationInUri`: it resolves with the detected locale when that
   * is a non-empty string and rejects otherwise (no match, an exception, or `""`).
   */
  function DetectConfigurationInUri(matchedLine: Option<string>): (r: Outcome)
    ensures r.Resolved? <==> matchedLine.Some? && LocaleFromLine(matchedLine.value).Some? && LocaleFromLine(matchedLine.value).value != ""
    ensures r.Resolved? ==> LocaleFromLine(matchedLine.value) == Some(r.locale)
  {
    match DetectConfigurationInDocument(matchedLine)
    case Found(locale) => if locale != "" then Resolved(locale) else Rejected
    case _ => Rejected
  }

  /** Deleting characters keeps the absence of any other character. */
  lemma {:induction false} RemoveCharsKeeps(s: string, cs: set<char>, c: char)
    requires c in s ==> c in cs
    ensures forall k | 0 <= k < |RemoveChars(s, cs)| :: RemoveChars(s, cs)[k] != c
  {
    if s != [] {
      assert c in s[1..] ==> c in s;
      RemoveCharsKeeps(s[1..], cs, c);
    }
  }

  /**
   * A configuration line `setting = :locale`, also with quotes around the locale
   * (`= "de"`, `= 'de'`), gives the bare locale: `config.i18n.default_locale = :en`
   * gives `en`.
   */
  lemma LocaleOfAssignment(setting: string, before: string, locale: string, after: string)
    requires setting != [] && !IsWhiteSpace(setting[0]) && '=' !in setting
    requires forall k | 0 <= k < |before| :: before[k] in RemovedChars
    requires forall k | 0 <= k < |after| :: after[k] in RemovedChars
    requires locale != [] && !IsWhiteSpace(locale[0]) && !IsWhiteSpace(locale[|locale| - 1])
    requires forall k | 0 <= k < |locale| :: locale[k] !in RemovedChars && locale[k] != '='
    requires after == [] || !IsWhiteSpace(after[|after| - 1])
    ensures LocaleFromLine(setting + "=" + (before + locale + after)) == Some(locale)
  {
    EqualsAbsent(before, locale, after);
    CleanedLocale(before, locale, after);
    var value := before + locale + after;
    LastOfValue(before, locale, after);
    TrimLine(setting, value);
    TrimLocale(locale);
    var line := setting + "=" + value;
    LocaleOfField(line, setting, value, locale);
  }

  lemma TrimLocale(locale: string)
    requires locale != [] && !IsWhiteSpace(locale[0]) && !IsWhiteSpace(locale[|locale| - 1])
    ensures Trim(locale) == locale
  {
  }

  lemma LastOfValue(before: string, locale: string, after: string)
    requires locale != []
    ensures var value := before + locale + after;
      value[|value| - 1] == if after == [] then locale[|locale| - 1] else after[|after| - 1]
  {
  }

  lemma LocaleOfField(line: string, setting: string, value: string, locale: string)
    requires line == setting + ['='] + value
    requires Trim(line) == line
    requires '=' !in setting && '=' !in value
    requires RemoveChars(value, RemovedChars) == locale && Trim(locale) == locale
    ensures LocaleFromLine(line) == Some(locale)
  {
    SecondFieldOfAssignment(setting, value);
  }

  lemma TrimLine(setting: string, value: string)
    requires setting != [] && !IsWhiteSpace(setting[0])
    requires value != [] && !IsWhiteSpace(value[|value| - 1])
    ensures Trim(setting + ['='] + value) == setting + ['='] + value
  {
    var line := setting + ['='] + value;
    assert line[0] == setting[0];
    assert line[|line| - 1] == value[|value| - 1];
  }

  lemma EqualsAbsent(before: string, locale: string, after: string)
    requires forall k | 0 <= k < |before| :: before[k] in RemovedChars
    requires forall k | 0 <= k < |after| :: after[k] in RemovedChars
    requires forall k | 0 <= k < |locale| :: locale[k] != '='
    ensures '=' !in before + locale + after
  {
    var value := before + locale + after;
    forall k | 0 <= k < |value|
      ensures value[k] != '='
    {
      if k < |before| {
        assert value[k] == before[k];
      } else if k < |before| + |locale| {
        assert value[k] == locale[k - |before|];
      } else {
        assert value[k] == after[k - |before| - |locale|];
      }
    }
  }

  lemma SecondFieldOfAssignment(setting: string, value: string)
    requires '=' !in setting && '=' !in value
    ensures var fields := Split(setting + ['='] + value, '='); |fields| >= 2 && fields[1] == value
  {
    var line := setting + ['='] + value;
    IndexOfCharAfter(setting, '=', value);
    IndexOfCharAbsent(value, '=');
    assert line[|setting| + 1..] == value;
  }

  lemma CleanedLocale(before: string, locale: string, after: string)
    requires forall k | 0 <= k < |before| :: before[k] in RemovedChars
    requires forall k | 0 <= k < |after| :: after[k] in RemovedChars
    requires forall k | 0 <= k < |locale| :: locale[k] !in RemovedChars
    ensures RemoveChars(before + locale + after, RemovedChars) == locale
  {
    RemoveCharsAppend(before + locale, after, RemovedChars);
    RemoveCharsAppend(before, locale, RemovedChars);
    RemoveCharsAll(before, RemovedChars);
    RemoveCharsAll(after, RemovedChars);
    RemoveCharsNone(locale, RemovedChars);
  }

  /** Deleting characters of `cs` from a string made only of them leaves nothing. */
  lemma {:induction false} RemoveCharsAll(s: string, cs: set<char>)
    requires forall k | 0 <= k < |s| :: s[k] in cs
    ensures RemoveChars(s, cs) == []
  {
    if s != [] {
      RemoveCharsAll(s[1..], cs);
    }
  }
}
