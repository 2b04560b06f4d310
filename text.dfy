/**
 * The JavaScript string built-ins the extension relies on (`split`, `join`,
 * `filter(s => s.length > 0)`, `startsWith`, `replace` with a character class,
 * `trim`), written out over `seq<char>`.
 */
module Text {

  import opened Wrappers

  /** First index of `c` in `s`, or `|s|` when `s` does not contain it. */
  function IndexOfChar(s: string, c: char): (i: nat)
    ensures i <= |s|
    ensures forall j | 0 <= j < i :: s[j] != c
    ensures i < |s| ==> s[i] == c
  {
    if s == [] then 0 else if s[0] == c then 0 else 1 + IndexOfChar(s[1..], c)
  }

  /** An optional string JavaScript treats as true: present and not empty. */
  predicate Truthy(s: Option<string>)
  {
    s.Some? && s.value != ""
  }

  /** `s.split(c)` for a one-character separator: the fields between the occurrences of `c`. */
  function Split(s: string, c: char): (r: seq<string>)
    ensures |r| >= 1
    ensures forall k | 0 <= k < |r| :: c !in r[k]
    decreases |s|
  {
    var i := IndexOfChar(s, c);
    if i == |s| then [s] else [s[..i]] + Split(s[i + 1..], c)
  }

  /** `parts.join(sep)`. */
  function JoinWith(parts: seq<string>, sep: string): string
  {
    if |parts| == 0 then ""
    else if |parts| == 1 then parts[0]
    else parts[0] + sep + JoinWith(parts[1..], sep)
  }

  /** `parts.join(".")`. */
  function JoinDots(parts: seq<string>): string
  {
    JoinWith(parts, ".")
  }

  /** Joining the fields of a split with the separator gives back the string. */
  lemma {:induction false} JoinSplit(s: string, c: char)
    ensures JoinWith(Split(s, c), [c]) == s
    decreases |s|
  {
    var i := IndexOfChar(s, c);
    if i < |s| {
      var rest := s[i + 1..];
      JoinSplit(rest, c);
      assert Split(s, c) == [s[..i]] + Split(rest, c);
      assert s == s[..i] + [c] + rest;
    }
  }

  /** Splitting a join of separator-free fields gives back the fields. */
  lemma {:induction false} SplitJoin(parts: seq<string>, c: char)
    requires |parts| >= 1
    requires forall k | 0 <= k < |parts| :: c !in parts[k]
    ensures Split(JoinWith(parts, [c]), c) == parts
  {
    if |parts| > 1 {
      var head, tail := parts[0], parts[1..];
      var s := JoinWith(parts, [c]);
      assert s == head + [c] + JoinWith(tail, [c]);
      IndexOfCharAfter(head, c, JoinWith(tail, [c]));
      assert s[..|head|] == head;
      assert s[|head| + 1..] == JoinWith(tail, [c]);
      SplitJoin(tail, c);
      assert parts == [head] + tail;
    } else {
      IndexOfCharAbsent(parts[0], c);
    }
  }

  lemma IndexOfCharAbsent(s: string, c: char)
    requires c !in s
    ensures IndexOfChar(s, c) == |s|
  {
  }

  lemma IndexOfCharAfter(head: string, c: char, rest: string)
    requires c !in head
    ensures IndexOfChar(head + [c] + rest, c) == |head|
  {
    var s := head + [c] + rest;
    assert forall j | 0 <= j < |head| :: s[j] == head[j];
    assert s[|head|] == c;
  }

  /** Two lists of non-empty, dot-free segments with the same dotted join are equal. */
  lemma JoinDotsInjective(p: seq<string>, q: seq<string>)
    requires forall k | 0 <= k < |p| :: p[k] != "" && '.' !in p[k]
    requires forall k | 0 <= k < |q| :: q[k] != "" && '.' !in q[k]
    requires JoinDots(p) == JoinDots(q)
    ensures p == q
  {
    if p == [] || q == [] {
      JoinDotsEmpty(p);
      JoinDotsEmpty(q);
    } else {
      SplitJoin(p, '.');
      SplitJoin(q, '.');
    }
  }

  /** The dotted join of non-empty segments is empty only for no segments. */
  lemma JoinDotsEmpty(p: seq<string>)
    requires forall k | 0 <= k < |p| :: p[k] != ""
    ensures JoinDots(p) == "" <==> p == []
  {
    if |p| > 1 {
      assert JoinDots(p) == p[0] + "." + JoinDots(p[1..]);
    }
  }

  /** `parts.filter(s => s.length > 0)`. */
  function RemoveEmpty(parts: seq<string>): (r: seq<string>)
    ensures forall k | 0 <= k < |r| :: r[k] != ""
    ensures forall x :: x in r <==> x in parts && x != ""
    ensures (forall k | 0 <= k < |parts| :: parts[k] != "") ==> r == parts
  {
    if parts == [] then []
    else if parts[0] == "" then RemoveEmpty(parts[1..])
    else [parts[0]] + RemoveEmpty(parts[1..])
  }

  /**
   * Filtering a concatenation filters each part, in order; with the one-element
   * cases below this fixes the result as `filter`'s, order and repetitions included.
   */
  lemma {:induction false} RemoveEmptyAppend(a: seq<string>, b: seq<string>)
    ensures RemoveEmpty(a + b) == RemoveEmpty(a) + RemoveEmpty(b)
    decreases |a|
  {
    if a == [] {
      assert a + b == b;
    } else {
      assert (a + b)[0] == a[0] && (a + b)[1..] == a[1..] + b;
      RemoveEmptyAppend(a[1..], b);
    }
  }

  /** A single element is kept exactly when it is not empty. */
  lemma RemoveEmptyOne(x: string)
    ensures RemoveEmpty([x]) == if x == "" then [] else [x]
  {
    assert [x][1..] == [];
  }

  /** `sub` occurs in `s` at index `i`. */
  predicate OccursAt(s: string, sub: string, i: nat)
  {
    i + |sub| <= |s| && s[i..i + |sub|] == sub
  }

  /** Index of the first occurrence of `sub` in `s`, or `|s|` when there is none. */
  function IndexOf(s: string, sub: string): (i: nat)
    requires sub != ""
    ensures i <= |s|
    ensures i < |s| ==> OccursAt(s, sub, i)
    ensures forall j | 0 <= j < i :: !OccursAt(s, sub, j)
    ensures i == |s| ==> forall j | 0 <= j <= |s| :: !OccursAt(s, sub, j)
  {
    if |s| < |sub| then |s|
    else if s[..|sub|] == sub then 0
    else
      var i := 1 + IndexOf(s[1..], sub);
      assert forall j | 1 <= j <= |s| :: OccursAt(s, sub, j) ==> OccursAt(s[1..], sub, j - 1);
      i
  }

  /**
   * `s.split(sub)[1]` for a non-empty separator: the text between the first and
   * the second occurrence of `sub` (or the end of `s`); `None` when `sub` does not
   * occur, where JavaScript yields `undefined`.
   */
  function SecondField(s: string, sub: string): (r: Option<string>)
    requires sub != ""
    ensures r.None? <==> forall j | 0 <= j <= |s| :: !OccursAt(s, sub, j)
  {
    var i := IndexOf(s, sub);
    if i == |s| then None
    else
      var rest := s[i + |sub|..];
      Some(rest[..IndexOf(rest, sub)])
  }

  /** Every `from` character of `s` replaced by `to` (`s.replace(/[..]/g, to)`). */
  function ReplaceChars(s: string, from: set<char>, to: char): (r: string)
    ensures |r| == |s|
    ensures forall k | 0 <= k < |s| :: r[k] == if s[k] in from then to else s[k]
  {
    if s == [] then [] else [if s[0] in from then to else s[0]] + ReplaceChars(s[1..], from, to)
  }

  /** `s` with every character of `cs` deleted (`s.replace(/[..]/g, "")`). */
  function RemoveChars(s: string, cs: set<char>): (r: string)
    ensures forall k | 0 <= k < |r| :: r[k] !in cs
    ensures |r| <= |s|
  {
    if s == [] then [] else (if s[0] in cs then [] else [s[0]]) + RemoveChars(s[1..], cs)
  }

  lemma {:induction false} RemoveCharsAppend(a: string, b: string, cs: set<char>)
    ensures RemoveChars(a + b, cs) == RemoveChars(a, cs) + RemoveChars(b, cs)
  {
    if a != [] {
      var head: string := if a[0] in cs then [] else [a[0]];
      assert (a + b)[0] == a[0];
      assert (a + b)[1..] == a[1..] + b;
      RemoveCharsAppend(a[1..], b, cs);
      calc {
        RemoveChars(a + b, cs);
        head + RemoveChars(a[1..] + b, cs);
        head + (RemoveChars(a[1..], cs) + RemoveChars(b, cs));
        (head + RemoveChars(a[1..], cs)) + RemoveChars(b, cs);
        RemoveChars(a, cs) + RemoveChars(b, cs);
      }
    } else {
      assert a + b == b;
    }
  }

  lemma {:induction false} RemoveCharsNone(s: string, cs: set<char>)
    requires forall k | 0 <= k < |s| :: s[k] !in cs
    ensures RemoveChars(s, cs) == s
  {
    if s != [] {
      RemoveCharsNone(s[1..], cs);
    }
  }

  /** The characters `String.prototype.trim` removes: WhiteSpace and LineTerminator of ECMAScript. */
  predicate IsWhiteSpace(c: char)
  {
    c == '\t' || c == '\n' || c == '\U{000B}' || c == '\U{000C}' || c == '\r' || c == ' ' ||
    c == '\U{00A0}' || c == '\U{1680}' || ('\U{2000}' <= c <= '\U{200A}') ||
    c == '\U{2028}' || c == '\U{2029}' || c == '\U{202F}' || c == '\U{205F}' ||
    c == '\U{3000}' || c == '\U{FEFF}'
  }

  /** `s` without its leading white space. */
  function TrimStart(s: string): (r: string)
    ensures |r| <= |s| && r == s[|s| - |r|..]
    ensures forall k | 0 <= k < |s| - |r| :: IsWhiteSpace(s[k])
    ensures r == [] || !IsWhiteSpace(r[0])
  {
    if s != [] && IsWhiteSpace(s[0]) then TrimStart(s[1..]) else s
  }

  /** `s` without its trailing white space. */
  function TrimEnd(s: string): (r: string)
    ensures |r| <= |s| && r == s[..|r|]
    ensures forall k | |r| <= k < |s| :: IsWhiteSpace(s[k])
    ensures r == [] || !IsWhiteSpace(r[|r| - 1])
  {
    if s != [] && IsWhiteSpace(s[|s| - 1]) then TrimEnd(s[..|s| - 1]) else s
  }

  /** `s.trim()`. */
  function Trim(s: string): (r: string)
    ensures r == [] || (!IsWhiteSpace(r[0]) && !IsWhiteSpace(r[|r| - 1]))
    ensures |r| <= |s|
    ensures (s == [] || (!IsWhiteSpace(s[0]) && !IsWhiteSpace(s[|s| - 1]))) ==> r == s
  {
    TrimEnd(TrimStart(s))
  }

  /** Trimming keeps only characters of the string. */
  lemma TrimKeeps(s: string, cs: set<char>)
    requires forall k | 0 <= k < |s| :: s[k] !in cs
    ensures forall k | 0 <= k < |Trim(s)| :: Trim(s)[k] !in cs
  {
    var t := TrimStart(s);
    assert forall k | 0 <= k < |t| :: t[k] == s[|s| - |t| + k];
    var r := TrimEnd(t);
    assert forall k | 0 <= k < |r| :: r[k] == t[k];
  }

  /** A split has a second field exactly when the separator occurs. */
  lemma SplitFields(s: string, c: char)
    ensures |Split(s, c)| >= 2 <==> c in s
    ensures c in s ==> Split(s, c)[0] == s[..IndexOfChar(s, c)]
  {
    var i := IndexOfChar(s, c);
    if i < |s| {
      assert s[i] == c;
    }
  }

  /** The fields of a split hold only characters of the string. */
  lemma {:induction false} SplitFree(s: string, c: char, cs: set<char>)
    requires forall k | 0 <= k < |s| :: s[k] !in cs
    ensures forall f | f in Split(s, c) :: forall k | 0 <= k < |f| :: f[k] !in cs
    decreases |s|
  {
    var i := IndexOfChar(s, c);
    if i < |s| {
      SplitFree(s[i + 1..], c, cs);
    }
  }

  /** A join holds only characters of its parts and its separator. */
  lemma {:induction false} JoinFree(parts: seq<string>, sep: string, cs: set<char>)
    requires forall f | f in parts :: forall k | 0 <= k < |f| :: f[k] !in cs
    requires forall k | 0 <= k < |sep| :: sep[k] !in cs
    ensures forall k | 0 <= k < |JoinWith(parts, sep)| :: JoinWith(parts, sep)[k] !in cs
  {
    if |parts| > 1 {
      assert parts[0] in parts;
      JoinFree(parts[1..], sep, cs);
      var tail := JoinWith(parts[1..], sep);
      assert JoinWith(parts, sep) == parts[0] + sep + tail;
      forall k | 0 <= k < |JoinWith(parts, sep)|
        ensures JoinWith(parts, sep)[k] !in cs
      {
        if k < |parts[0]| {
        } else if k < |parts[0]| + |sep| {
          assert JoinWith(parts, sep)[k] == sep[k - |parts[0]|];
        } else {
          assert JoinWith(parts, sep)[k] == tail[k - |parts[0]| - |sep|];
        }
      }
    } else if |parts| == 1 {
      assert parts[0] in parts;
    }
  }

  /** Replacing the separator of a join, when the parts hold no replaced character, joins with the new one. */
  lemma {:induction false} ReplaceJoin(parts: seq<string>, from: set<char>, sep: char, to: char)
    requires sep in from
    requires forall f | f in parts :: forall k | 0 <= k < |f| :: f[k] !in from
    ensures ReplaceChars(JoinWith(parts, [sep]), from, to) == JoinWith(parts, [to])
  {
    if |parts| == 1 {
      assert parts[0] in parts;
      assert ReplaceChars(parts[0], from, to) == parts[0];
    } else if |parts| > 1 {
      assert parts[0] in parts;
      ReplaceJoin(parts[1..], from, sep, to);
      var a, b := parts[0], JoinWith(parts[1..], [sep]);
      var l := JoinWith(parts, [sep]);
      assert l == a + [sep] + b;
      var r := ReplaceChars(l, from, to);
      assert r == a + [to] + ReplaceChars(b, from, to) by {
        forall k | 0 <= k < |l|
          ensures r[k] == (a + [to] + ReplaceChars(b, from, to))[k]
        {
          if k < |a| {
          } else if k == |a| {
          } else {
            assert l[k] == b[k - |a| - 1];
          }
        }
      }
    }
  }

  /** Joining a list with a first element: the element, the separator, then the join of the rest. */
  lemma JoinCons(x: string, parts: seq<string>, sep: string)
    requires |parts| >= 1
    ensures JoinWith([x] + parts, sep) == x + sep + JoinWith(parts, sep)
  {
    assert ([x] + parts)[1..] == parts;
  }
}
