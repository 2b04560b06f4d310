/**
 * Relative translation keys in view templates: a key starting with `.` is
 * completed by a prefix derived from the template's path below `views`.
 */
module KeyDetection {
  import opened Wrappers
  import opened Text

  /** `isRelativeKey`: the key starts with a period. */
  predicate IsRelativeKey(key: string)
  {
    |key| > 0 && key[0] == '.'
  }

  /** A path segment loses one leading underscore (partials are named `_form`). */
  function DropUnderscore(part: string): (r: string)
    ensures |part| > 0 && part[0] == '_' ==> r == part[1..]
    ensures !(|part| > 0 && part[0] == '_') ==> r == part
  {
    if |part| > 0 && part[0] == '_' then part[1..] else part
  }

  function DropUnderscores(parts: seq<string>): (r: seq<string>)
    ensures |r| == |parts|
    ensures forall k | 0 <= k < |parts| :: r[k] == DropUnderscore(parts[k])
  {
    if parts == [] then [] else [DropUnderscore(parts[0])] + DropUnderscores(parts[1..])
  }

  /** The characters that `replace(/\\|\//g, ".")` turns into periods. */
  const PathSeparators: set<char> := {'/', '\\'}

  /**
   * `getRelativeKeyPart`: the text between the first and second `views`, cut at
   * its first period, with every path separator turned into a period, one
   * leading period dropped, and one leading underscore dropped per segment.
   * Without `views` in the file name the split gives `undefined`, the call on it
   * throws, and the catch answers `""`.
   */
  function GetRelativeKeyPart(currentFilename: string): (r: string)
    ensures SecondField(currentFilename, "views").None? ==> r == ""
    ensures forall k | 0 <= k < |r| :: r[k] !in PathSeparators
  {
    match SecondField(currentFilename, "views")
    case None => ""
    case Some(between) =>
      var relativeKey := ReplaceChars(Split(between, '.')[0], PathSeparators, '.');
      var trimmed := if |relativeKey| > 0 && relativeKey[0] == '.' then relativeKey[1..] else relativeKey;
      SegmentsFree(trimmed);
      JoinDots(DropUnderscores(Split(trimmed, '.')))
  }

  /** The segments of a string without path separators, joined again, hold none either. */
  lemma SegmentsFree(trimmed: string)
    requires forall k | 0 <= k < |trimmed| :: trimmed[k] !in PathSeparators
    ensures forall k | 0 <= k < |JoinDots(DropUnderscores(Split(trimmed, '.')))| ::
      JoinDots(DropUnderscores(Split(trimmed, '.')))[k] !in PathSeparators
  {
    var fields := Split(trimmed, '.');
    SplitFree(trimmed, '.', PathSeparators);
    var parts := DropUnderscores(fields);
    forall f | f in parts
      ensures forall k | 0 <= k < |f| :: f[k] !in PathSeparators
    {
      var m :| 0 <= m < |parts| && parts[m] == f;
      var field := fields[m];
      assert field in fields;
      assert forall k | 0 <= k < |field| :: field[k] !in PathSeparators;
      forall k | 0 <= k < |f|
        ensures f[k] !in PathSeparators
      {
        if |field| > 0 && field[0] == '_' {
          assert f[k] == field[k + 1];
        } else {
          assert f[k] == field[k];
        }
      }
    }
    JoinFree(parts, ".", PathSeparators);
  }

  /**
   * `makeAbsoluteKey`: a relative key gets the relative part of the file name in
   * front of it, unless that part is empty; any other key stays as it is.
   */
  function MakeAbsoluteKey(key: string, currentFilename: string): (r: string)
    ensures |key| <= |r| && r[|r| - |key|..] == key
    ensures !IsRelativeKey(key) ==> r == key
    ensures IsRelativeKey(key) && GetRelativeKeyPart(currentFilename) == "" ==> r == key
    ensures IsRelativeKey(key) && GetRelativeKeyPart(currentFilename) != "" ==> r == GetRelativeKeyPart(currentFilename) + key
    ensures r != key ==> IsRelativeKey(key) && r == GetRelativeKeyPart(currentFilename) + key
  {
    if !IsRelativeKey(key) then key
    else
      var relativeKeyPart := GetRelativeKeyPart(currentFilename);
      if relativeKeyPart == "" then key else relativeKeyPart + key
  }

  /** An absolute key made from a relative part that does not itself start with a period is no longer relative. */
  lemma AbsoluteKeyIdempotent(key: string, currentFilename: string)
    requires var p := GetRelativeKeyPart(currentFilename); p == "" || p[0] != '.'
    ensures var r := MakeAbsoluteKey(key, currentFilename); r == key || !IsRelativeKey(r)
    ensures MakeAbsoluteKey(MakeAbsoluteKey(key, currentFilename), currentFilename) ==
      if MakeAbsoluteKey(key, currentFilename) == key then key else MakeAbsoluteKey(key, currentFilename)
  {
  }

  /** A part that does not start with an underscore is kept. */
  lemma DropUnderscoresNone(parts: seq<string>)
    requires forall k | 0 <= k < |parts| :: parts[k] == "" || parts[k][0] != '_'
    ensures DropUnderscores(parts) == parts
  {
  }

  /** Between the first and the second occurrence: a separator that occurs once gives the rest of the string. */
  lemma SecondFieldOnce(pre: string, sub: string, rest: string)
    requires sub != ""
    requires forall j | 0 <= j < |pre| :: !OccursAt(pre + sub + rest, sub, j)
    requires forall j | 0 <= j <= |rest| :: !OccursAt(rest, sub, j)
    ensures SecondField(pre + sub + rest, sub) == Some(rest)
  {
    var s := pre + sub + rest;
    assert s[|pre|..|pre| + |sub|] == sub;
    assert OccursAt(s, sub, |pre|);
    var i := IndexOf(s, sub);
    assert i == |pre|;
    assert s[i + |sub|..] == rest;
    assert IndexOf(rest, sub) == |rest|;
    assert rest[..|rest|] == rest;
  }

  /** A string of path segments holds no period when the segments hold none. */
  lemma SegmentsWithoutDot(segs: seq<string>)
    requires forall k | 0 <= k < |segs| :: '.' !in segs[k]
    ensures '.' !in "/" + JoinWith(segs, "/")
  {
    assert forall f | f in segs :: forall k | 0 <= k < |f| :: f[k] !in {'.'} by {
      forall f | f in segs ensures forall k | 0 <= k < |f| :: f[k] !in {'.'} {
        var m :| 0 <= m < |segs| && segs[m] == f;
      }
    }
    JoinFree(segs, "/", {'.'});
  }

  /** The path separators of `/dir/…/name` become periods. */
  lemma ReplaceSegments(segs: seq<string>)
    requires |segs| >= 1
    requires forall k | 0 <= k < |segs| :: '/' !in segs[k] && '\\' !in segs[k]
    ensures ReplaceChars("/" + JoinWith(segs, "/"), PathSeparators, '.') == "." + JoinDots(segs)
  {
    var all := [""] + segs;
    JoinCons("", segs, "/");
    JoinCons("", segs, ".");
    assert JoinWith(all, ['/']) == "/" + JoinWith(segs, "/");
    assert JoinWith(all, ['.']) == "." + JoinDots(segs);
    forall f | f in all
      ensures forall k | 0 <= k < |f| :: f[k] !in PathSeparators
    {
      if f != "" {
        var m :| 0 <= m < |all| && all[m] == f;
        assert f == segs[m - 1];
        assert '/' !in f && '\\' !in f;
      }
    }
    ReplaceJoin(all, PathSeparators, '/', '.');
  }

  /** What follows `views` in a template path: `/dir/…/name.ext`. */
  function ViewTail(segs: seq<string>, ext: string): string
  {
    "/" + JoinWith(segs, "/") + "." + ext
  }

  /**
   * A template path `…views/dir/…/name.ext` gives the directories and the name,
   * each without one leading underscore, joined by periods.
   */
  lemma RelativeKeyOfViewPath(pre: string, segs: seq<string>, ext: string)
    requires |segs| >= 1
    requires forall k | 0 <= k < |segs| :: segs[k] != "" && '.' !in segs[k] && '/' !in segs[k] && '\\' !in segs[k]
    requires forall j | 0 <= j < |pre| :: !OccursAt(pre + "views" + ViewTail(segs, ext), "views", j)
    requires forall j | 0 <= j <= |ViewTail(segs, ext)| :: !OccursAt(ViewTail(segs, ext), "views", j)
    ensures GetRelativeKeyPart(pre + "views" + ViewTail(segs, ext)) == JoinDots(DropUnderscores(segs))
  {
    var head := "/" + JoinWith(segs, "/");
    var rest := ViewTail(segs, ext);
    SecondFieldOnce(pre, "views", rest);
    SegmentsWithoutDot(segs);
    IndexOfCharAfter(head, '.', ext);
    assert rest == head + ['.'] + ext;
    assert Split(rest, '.')[0] == head;
    ReplaceSegments(segs);
    var relativeKey := ReplaceChars(head, PathSeparators, '.');
    assert relativeKey[1..] == JoinDots(segs);
    SplitJoin(segs, '.');
  }

  /**
   * A relative key in a template `…views/dir/…/name.ext` is completed by the
   * directories and the name joined by periods: `.world` in
   * `app/views/hello/show.html.haml` becomes `hello.show.world`.
   */
  lemma AbsoluteKeyOfViewPath(key: string, pre: string, segs: seq<string>, ext: string)
    requires IsRelativeKey(key) && |segs| >= 1
    requires forall k | 0 <= k < |segs| :: segs[k] != "" && '.' !in segs[k] && '/' !in segs[k] && '\\' !in segs[k]
    requires forall j | 0 <= j < |pre| :: !OccursAt(pre + "views" + ViewTail(segs, ext), "views", j)
    requires forall j | 0 <= j <= |ViewTail(segs, ext)| :: !OccursAt(ViewTail(segs, ext), "views", j)
    ensures MakeAbsoluteKey(key, pre + "views" + ViewTail(segs, ext)) == JoinDots(DropUnderscores(segs)) + key
  {
    RelativeKeyOfViewPath(pre, segs, ext);
  }
}
