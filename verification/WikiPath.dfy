/**
 Folder paths: parsing a path string into folder names, and what it means for a folder to
 lie at a list of names.
 */
module WikiPath {
  import opened Wrappers
  import opened WikiForest
  import opened WikiAccess
  import opened WikiRuns

  datatype PathError = PathRequired | PathBlank | PathInvalid

  /** The white space and line terminators that `String.prototype.trim` removes. */
  predicate IsSpace(c: char) {
    var n := c as int;
    || 9 <= n <= 13 || n == 32 || n == 160 || n == 5760 || 8192 <= n <= 8202
    || n == 8232 || n == 8233 || n == 8239 || n == 8287 || n == 12288 || n == 65279
  }

  function TrimStart(s: string): string {
    if s != [] && IsSpace(s[0]) then TrimStart(s[1..]) else s
  }

  function TrimEnd(s: string): string {
    if s != [] && IsSpace(s[|s| - 1]) then TrimEnd(s[..|s| - 1]) else s
  }

  function Trim(s: string): string {
    TrimEnd(TrimStart(s))
  }

  function StripStart(s: string): string {
    if s != [] && s[0] == '/' then StripStart(s[1..]) else s
  }

  function StripEnd(s: string): string {
    if s != [] && s[|s| - 1] == '/' then StripEnd(s[..|s| - 1]) else s
  }

  /** The pieces between slashes; there is one more piece than there are slashes. */
  function Split(s: string): (parts: seq<string>)
    ensures parts != []
  {
    if s == [] then [[]]
    else
      var rest := Split(s[1..]);
      if s[0] == '/' then [[]] + rest else [[s[0]] + rest[0]] + rest[1..]
  }

  function NonEmpty(parts: seq<string>): seq<string> {
    if parts == [] then []
    else Kept(parts[0]) + NonEmpty(parts[1..])
  }

  function Kept(part: string): seq<string> {
    if part == [] then [] else [part]
  }

  function Segments(s: string): seq<string> {
    NonEmpty(Split(s))
  }

  function ParsePath(path: string): Result<seq<string>, PathError> {
    if path == [] then Err(PathRequired)
    else
      var trimmed := StripEnd(StripStart(Trim(path)));
      if trimmed == [] then Err(PathBlank)
      else
        var names := Segments(trimmed);
        if |names| == 0 then Err(PathInvalid) else Ok(names)
  }

  predicate IsName(s: string) {
    s != [] && '/' !in s
  }

  predicate AreNames(names: seq<string>) {
    forall i :: 0 <= i < |names| ==> IsName(names[i])
  }

  // ---- splitting ----

  lemma NonEmptyFirst(part: string, rest: seq<string>)
    ensures NonEmpty([part] + rest) == Kept(part) + NonEmpty(rest)
  {
    assert ([part] + rest)[1..] == rest;
  }

  lemma Associative<T>(a: seq<T>, b: seq<T>, c: seq<T>)
    ensures a + (b + c) == (a + b) + c
  {
  }

  lemma {:induction false} NonEmptyAppend(a: seq<string>, b: seq<string>)
    ensures NonEmpty(a + b) == NonEmpty(a) + NonEmpty(b)
  {
    if a == [] {
      assert a + b == b;
    } else {
      var first, rest := a[0], a[1..];
      NonEmptyAppend(rest, b);
      calc {
        NonEmpty(a + b);
        { Associative([first], rest, b); assert a == [first] + rest; }
        NonEmpty([first] + (rest + b));
        { NonEmptyFirst(first, rest + b); }
        Kept(first) + (NonEmpty(rest) + NonEmpty(b));
        { Associative(Kept(first), NonEmpty(rest), NonEmpty(b)); }
        (Kept(first) + NonEmpty(rest)) + NonEmpty(b);
      }
    }
  }

  lemma PrependToSplit(c: char, parts: seq<string>, more: seq<string>)
    requires parts != []
    ensures [[c] + (parts + more)[0]] + (parts + more)[1..] == ([[c] + parts[0]] + parts[1..]) + more
    ensures [[]] + (parts + more) == ([[]] + parts) + more
  {
  }

  lemma {:induction false} SplitAtSlash(a: string, b: string)
    ensures Split(a + ['/'] + b) == Split(a) + Split(b)
  {
    var s := a + ['/'] + b;
    if a == [] {
      assert s[0] == '/' && s[1..] == b;
    } else {
      SplitAtSlash(a[1..], b);
      assert s[0] == a[0] && s[1..] == a[1..] + ['/'] + b;
      PrependToSplit(a[0], Split(a[1..]), Split(b));
    }
  }

  lemma SegmentsAtSlash(a: string, b: string)
    ensures Segments(a + ['/'] + b) == Segments(a) + Segments(b)
  {
    SplitAtSlash(a, b);
    NonEmptyAppend(Split(a), Split(b));
  }

  lemma SlashBefore(s: string)
    ensures Segments(['/'] + s) == Segments(s)
  {
    assert (['/'] + s)[1..] == s;
  }

  lemma {:induction false} SplitName(s: string)
    requires '/' !in s
    ensures Split(s) == [s]
  {
    if s != [] {
      SplitName(s[1..]);
      assert [s[0]] + s[1..] == s;
    }
  }

  lemma {:induction false} StripStartKeepsSegments(s: string)
    ensures Segments(StripStart(s)) == Segments(s)
  {
    if s != [] && s[0] == '/' {
      StripStartKeepsSegments(s[1..]);
      SlashBefore(s[1..]);
      assert s == ['/'] + s[1..];
    }
  }

  lemma {:induction false} StripEndKeepsSegments(s: string)
    ensures Segments(StripEnd(s)) == Segments(s)
  {
    if s != [] && s[|s| - 1] == '/' {
      var a := s[..|s| - 1];
      StripEndKeepsSegments(a);
      SegmentsAtSlash(a, []);
      assert s == a + ['/'] + [];
    }
  }

  /** A string that does not start with a slash has a segment, unless it is empty. */
  lemma NoLeadingSlashHasSegment(s: string)
    requires s != [] && s[0] != '/'
    ensures Segments(s) != []
  {
  }

  lemma {:induction false} StripEndKeepsStart(s: string)
    ensures StripEnd(s) <= s
  {
    if s != [] && s[|s| - 1] == '/' {
      StripEndKeepsStart(s[..|s| - 1]);
    }
  }

  lemma {:induction false} StripStartEndsAtName(s: string)
    ensures StripStart(s) == [] || StripStart(s)[0] != '/'
  {
    if s != [] && s[0] == '/' {
      StripStartEndsAtName(s[1..]);
    }
  }

  /**
   Parsing yields the segments of the trimmed string, or says that there are none.  The
   third error of the service is never raised.
   */
  lemma ParseYieldsSegments(path: string)
    ensures ParsePath(path) == if path == [] then Err(PathRequired)
                               else if Segments(Trim(path)) == [] then Err(PathBlank)
                               else Ok(Segments(Trim(path)))
  {
    var s := Trim(path);
    var a := StripStart(s);
    StripStartKeepsSegments(s);
    StripEndKeepsSegments(a);
    StripStartEndsAtName(s);
    StripEndKeepsStart(a);
    if StripEnd(a) != [] {
      NoLeadingSlashHasSegment(StripEnd(a));
    } else {
      assert Segments([]) == [];
    }
  }

  // ---- the characters of a path ----

  /** How many characters are not slashes. */
  function Letters(s: string): nat {
    if s == [] then 0 else (if s[0] == '/' then 0 else 1) + Letters(s[1..])
  }

  function TotalLength(names: seq<string>): nat {
    if names == [] then 0 else |names[0]| + TotalLength(names[1..])
  }

  lemma {:induction false} NonEmptyKeepsLength(parts: seq<string>)
    ensures TotalLength(NonEmpty(parts)) == TotalLength(parts)
  {
    if parts != [] {
      NonEmptyKeepsLength(parts[1..]);
      var rest := NonEmpty(parts[1..]);
      assert parts[0] != [] ==> ([parts[0]] + rest)[1..] == rest;
      assert [] + rest == rest;
    }
  }

  lemma {:induction false} SplitKeepsLetters(s: string)
    ensures TotalLength(Split(s)) == Letters(s)
  {
    if s != [] {
      SplitKeepsLetters(s[1..]);
      var rest := Split(s[1..]);
      if s[0] == '/' {
        assert ([[]] + rest)[1..] == rest;
      } else {
        assert ([[s[0]] + rest[0]] + rest[1..])[1..] == rest[1..];
      }
    }
  }

  lemma {:induction false} LettersAppend(a: string, b: string)
    ensures Letters(a + b) == Letters(a) + Letters(b)
  {
    if a == [] {
      assert a + b == b;
    } else {
      LettersAppend(a[1..], b);
      assert (a + b)[1..] == a[1..] + b;
    }
  }

  lemma {:induction false} TrimStartLosesLetters(s: string)
    ensures Letters(TrimStart(s)) <= Letters(s)
    ensures s != [] && IsSpace(s[0]) ==> Letters(TrimStart(s)) < Letters(s)
  {
    if s != [] && IsSpace(s[0]) {
      TrimStartLosesLetters(s[1..]);
    }
  }

  lemma {:induction false} TrimEndLosesLetters(s: string)
    ensures Letters(TrimEnd(s)) <= Letters(s)
    ensures s != [] && IsSpace(s[|s| - 1]) ==> Letters(TrimEnd(s)) < Letters(s)
  {
    if s != [] && IsSpace(s[|s| - 1]) {
      var a := s[..|s| - 1];
      TrimEndLosesLetters(a);
      LettersAppend(a, [s[|s| - 1]]);
      assert s == a + [s[|s| - 1]];
    }
  }

  /** Trimming a non-empty string removes a letter exactly if it starts or ends with white space. */
  lemma TrimLosesLetters(s: string)
    requires s != []
    ensures Letters(Trim(s)) < Letters(s) <==> IsSpace(s[0]) || IsSpace(s[|s| - 1])
    ensures !IsSpace(s[0]) && !IsSpace(s[|s| - 1]) ==> Trim(s) == s
  {
    TrimStartLosesLetters(s);
    TrimEndLosesLetters(TrimStart(s));
  }

  // ---- spelling a list of names as a path ----

  function Slashes(n: nat): (s: string)
    ensures |s| == n && forall i :: 0 <= i < n ==> s[i] == '/'
  {
    if n == 0 then [] else ['/'] + Slashes(n - 1)
  }

  /** The names with `gaps[0]` slashes before the first, `gaps[i]` after the i-th. */
  function Spelled(names: seq<string>, gaps: seq<nat>): string
    requires |gaps| == |names| + 1
  {
    if names == [] then Slashes(gaps[0])
    else Slashes(gaps[0]) + names[0] + Spelled(names[1..], gaps[1..])
  }

  predicate InnerGaps(gaps: seq<nat>) {
    forall i :: 0 < i < |gaps| - 1 ==> gaps[i] > 0
  }

  lemma {:induction false} LeadingSlashes(n: nat, s: string)
    ensures Segments(Slashes(n) + s) == Segments(s)
  {
    if n == 0 {
      assert Slashes(0) + s == s;
    } else {
      LeadingSlashes(n - 1, s);
      SlashBefore(Slashes(n - 1) + s);
      Associative(['/'], Slashes(n - 1), s);
    }
  }

  lemma NameIsSegment(name: string)
    requires IsName(name)
    ensures Segments(name) == [name]
  {
    SplitName(name);
    NonEmptyFirst(name, []);
    assert [name] + [] == [name];
  }

  lemma NothingHasNoSegment()
    ensures Segments([]) == []
  {
  }

  /** A name followed by nothing or by a slash is a segment of its own. */
  lemma NameThenSlash(name: string, rest: string)
    requires IsName(name) && (rest == [] || rest[0] == '/')
    ensures Segments(name + rest) == [name] + Segments(rest)
  {
    NameIsSegment(name);
    NothingHasNoSegment();
    if rest == [] {
      assert name + rest == name;
    } else {
      var tail := rest[1..];
      assert rest == ['/'] + tail;
      SlashBefore(tail);
      SegmentsAtSlash(name, tail);
      Associative(name, ['/'], tail);
    }
  }

  lemma {:induction false} SpelledSegments(names: seq<string>, gaps: seq<nat>)
    requires |gaps| == |names| + 1 && AreNames(names) && InnerGaps(gaps)
    ensures Segments(Spelled(names, gaps)) == names
  {
    if names == [] {
      LeadingSlashes(gaps[0], []);
      assert Slashes(gaps[0]) + [] == Slashes(gaps[0]);
    } else {
      var name, rest := names[0], Spelled(names[1..], gaps[1..]);
      assert InnerGaps(gaps[1..]) by {
        forall i | 0 < i < |gaps[1..]| - 1 ensures gaps[1..][i] > 0 {
          assert gaps[1..][i] == gaps[i + 1];
        }
      }
      assert IsName(name);
      SpelledSegments(names[1..], gaps[1..]);
      LeadingSlashes(gaps[0], name + rest);
      NameThenSlash(name, rest);
      assert Spelled(names, gaps) == Slashes(gaps[0]) + (name + rest);
    }
  }

  lemma {:induction false} SpelledEnds(names: seq<string>, gaps: seq<nat>)
    requires |gaps| == |names| + 1 && AreNames(names) && names != []
    ensures Spelled(names, gaps) != []
    ensures Spelled(names, gaps)[0] == if gaps[0] > 0 then '/' else names[0][0]
    ensures var s, name := Spelled(names, gaps), names[|names| - 1];
            s[|s| - 1] == if gaps[|gaps| - 1] > 0 then '/' else name[|name| - 1]
  {
    assert IsName(names[0]);
    var front, rest := Slashes(gaps[0]) + names[0], Spelled(names[1..], gaps[1..]);
    assert Spelled(names, gaps) == front + rest;
    if |names| > 1 {
      SpelledEnds(names[1..], gaps[1..]);
      assert gaps[1..][|names| - 1] == gaps[|names|] && names[1..][|names| - 2] == names[|names| - 1];
    } else {
      assert rest == Slashes(gaps[1]);
    }
  }

  /**
   Path round trip.  With slashes on both sides any spelling of a list of names parses to
   exactly these names, however many slashes stand before, between or after them; without an
   outer slash that name must not have white space on its outer side.
   */
  lemma SpellingRoundTrip(names: seq<string>, gaps: seq<nat>)
    requires names != [] && AreNames(names)
    requires |gaps| == |names| + 1 && InnerGaps(gaps)
    ensures ParsePath(Spelled(names, gaps)) == Ok(names) <==>
            var last := names[|names| - 1];
            && (gaps[0] > 0 || !IsSpace(names[0][0]))
            && (gaps[|gaps| - 1] > 0 || !IsSpace(last[|last| - 1]))
  {
    var s := Spelled(names, gaps);
    SpelledSegments(names, gaps);
    SpelledEnds(names, gaps);
    ParseYieldsSegments(s);
    TrimLosesLetters(s);
    SplitKeepsLetters(s);
    NonEmptyKeepsLength(Split(s));
    SplitKeepsLetters(Trim(s));
    NonEmptyKeepsLength(Split(Trim(s)));
  }

  lemma {:induction false} SplitHasNoSlash(s: string)
    ensures forall i :: 0 <= i < |Split(s)| ==> '/' !in Split(s)[i]
  {
    if s != [] {
      SplitHasNoSlash(s[1..]);
    }
  }

  lemma {:induction false} NonEmptyAreNames(parts: seq<string>)
    requires forall i :: 0 <= i < |parts| ==> '/' !in parts[i]
    ensures AreNames(NonEmpty(parts))
  {
    if parts != [] {
      NonEmptyAreNames(parts[1..]);
    }
  }

  /** Whatever is parsed can be spelled canonically, with one slash around each name, and parsed back. */
  lemma {:induction false} ParsedPathIsCanonical(path: string, names: seq<string>)
    requires ParsePath(path) == Ok(names)
    ensures names != [] && AreNames(names)
    ensures ParsePath(Spelled(names, seq(|names| + 1, i => 1))) == Ok(names)
  {
    ParseYieldsSegments(path);
    SplitHasNoSlash(Trim(path));
    NonEmptyAreNames(Split(Trim(path)));
    SpellingRoundTrip(names, seq(|names| + 1, i => 1));
  }

  /** The characters that are white space or end a line. */
  const WHITE_SPACE := "\t\n\U{000B}\U{000C}\r \U{00A0}\U{1680}\U{2000}\U{2001}\U{2002}\U{2003}\U{2004}"
                       + "\U{2005}\U{2006}\U{2007}\U{2008}\U{2009}\U{200A}\U{2028}\U{2029}\U{202F}"
                       + "\U{205F}\U{3000}\U{FEFF}"

  lemma SpacesAreListed(c: char)
    ensures IsSpace(c) <==> c in WHITE_SPACE
  {
    var w := WHITE_SPACE;
    assert w[0] == '\t' && w[1] == '\n' && w[2] as int == 11 && w[3] as int == 12 && w[4] == '\r' && w[5] == ' ';
    assert w[6] as int == 160 && w[7] as int == 5760 && w[8] as int == 8192 && w[9] as int == 8193;
    assert w[10] as int == 8194 && w[11] as int == 8195 && w[12] as int == 8196 && w[13] as int == 8197;
    assert w[14] as int == 8198 && w[15] as int == 8199 && w[16] as int == 8200 && w[17] as int == 8201;
    assert w[18] as int == 8202 && w[19] as int == 8232 && w[20] as int == 8233 && w[21] as int == 8239;
    assert w[22] as int == 8287 && w[23] as int == 12288 && w[24] as int == 65279;
    assert |w| == 25;
    if IsSpace(c) {
      assert exists i :: 0 <= i < 25 && w[i] as int == c as int;
    }
  }

  /** A character around a name is part of it unless it is white space or a slash. */
  lemma OuterCharacter(c: char)
    ensures ParsePath([c] + "a") == if c in WHITE_SPACE || c == '/' then Ok(["a"]) else Ok([[c] + "a"])
    ensures ParsePath("a" + [c]) == if c in WHITE_SPACE || c == '/' then Ok(["a"]) else Ok(["a" + [c]])
  {
    SpacesAreListed(c);
    OneCharacterMore(c);
  }

  lemma TrimmedCharacter(c: char)
    ensures Trim([c] + "a") == if IsSpace(c) then "a" else [c] + "a"
    ensures Trim("a" + [c]) == if IsSpace(c) then "a" else "a" + [c]
  {
    var s, t := [c] + "a", "a" + [c];
    assert s[0] == c && s[1..] == "a" && s[|s| - 1] == 'a';
    assert t[0] == 'a' && t[|t| - 1] == c && t[..|t| - 1] == "a";
    assert TrimStart("a") == TrimEnd("a") == "a";
    assert TrimStart(s) == if IsSpace(c) then "a" else s;
    assert TrimStart(t) == t && TrimEnd(s) == s;
    assert TrimEnd(t) == if IsSpace(c) then "a" else t;
  }

  lemma OneCharacterMore(c: char)
    ensures ParsePath([c] + "a") == if IsSpace(c) || c == '/' then Ok(["a"]) else Ok([[c] + "a"])
    ensures ParsePath("a" + [c]) == if IsSpace(c) || c == '/' then Ok(["a"]) else Ok(["a" + [c]])
  {
    TrimmedCharacter(c);
    ParseYieldsSegments([c] + "a");
    ParseYieldsSegments("a" + [c]);
    NameIsSegment("a");
    if c == '/' {
      SlashBefore("a");
      SlashBefore([]);
      assert ['/'] + [] == ['/'];
      NothingHasNoSegment();
      NameThenSlash("a", ['/']);
    } else {
      NameIsSegment([c] + "a");
      NameIsSegment("a" + [c]);
    }
  }

  // ---- folders at a path ----

  /** The rows that one `findOne` of the descent may return. */
  predicate IsFolderNamed(t: Table, x: Id, parent: Option<Id>, name: string) {
    IsLiveFolder(t, x) && t[x].name == name && t[x].parentId == parent
  }

  /** `at` is reached from the top by live folders with exactly these names. */
  predicate Located(t: Table, at: Option<Id>, names: seq<string>)
    decreases |names|
  {
    var n := |names| - 1;
    if names == [] then at.None?
    else
      && at.Some? && at.value in t
      && IsFolderNamed(t, at.value, t[at.value].parentId, names[n])
      && Located(t, t[at.value].parentId, names[..n])
  }

  /** Row `c[i]` is a folder that is not deleted, has the name at `i`, and hangs under the row before it. */
  predicate IsStep(t: Table, c: seq<Id>, names: seq<string>, i: nat)
    requires i < |c| == |names|
  {
    && c[i] in t && !t[c[i]].deleted && t[c[i]].kind == Folder && t[c[i]].name == names[i]
    && t[c[i]].parentId == if i == 0 then None else Some(c[i - 1])
  }

  /** `c` leads from the top through one folder after another with exactly these names. */
  predicate IsPath(t: Table, c: seq<Id>, names: seq<string>) {
    |c| == |names| && forall i :: 0 <= i < |c| ==> IsStep(t, c, names, i)
  }

  lemma {:induction false} LocatedIsPath(t: Table, x: Id, names: seq<string>) returns (c: seq<Id>)
    requires Located(t, Some(x), names)
    ensures c != [] && c[|c| - 1] == x && IsPath(t, c, names)
    decreases |names|
  {
    var n := |names| - 1;
    if t[x].parentId.None? {
      assert names[..n] == [];
      c := [x];
      assert IsStep(t, c, names, 0);
    } else {
      var above := LocatedIsPath(t, t[x].parentId.value, names[..n]);
      c := above + [x];
      forall i | 0 <= i <= n ensures IsStep(t, c, names, i) {
        assert i < n ==> IsStep(t, above, names[..n], i);
      }
    }
  }

  lemma {:induction false} PathIsLocated(t: Table, c: seq<Id>, names: seq<string>)
    requires c != [] && IsPath(t, c, names)
    ensures Located(t, Some(c[|c| - 1]), names)
    decreases |c|
  {
    var n := |c| - 1;
    assert IsStep(t, c, names, n);
    if n == 0 {
      assert names[..n] == [];
    } else {
      forall i | 0 <= i < n ensures IsStep(t, c[..n], names[..n], i) {
        assert IsStep(t, c, names, i);
      }
      PathIsLocated(t, c[..n], names[..n]);
    }
  }

  ghost predicate UniqueFolderNames(t: Table) {
    forall x, y, p, name :: IsFolderNamed(t, x, p, name) && IsFolderNamed(t, y, p, name) ==> x == y
  }

  predicate AllLiveFolders(t: Table, c: seq<Id>) {
    forall a :: a in c ==> IsLiveFolder(t, a)
  }

  function CrumbNames(t: Table, crumbs: seq<Crumb>): seq<string> {
    if crumbs == [] then []
    else (if crumbs[0].id in t then [t[crumbs[0].id].name] else []) + CrumbNames(t, crumbs[1..])
  }

  lemma {:induction false} CrumbNamesAppend(t: Table, a: seq<Crumb>, b: seq<Crumb>)
    ensures CrumbNames(t, a + b) == CrumbNames(t, a) + CrumbNames(t, b)
  {
    if a == [] {
      assert a + b == b;
    } else {
      CrumbNamesAppend(t, a[1..], b);
      assert (a + b)[1..] == a[1..] + b;
    }
  }

  lemma {:induction false} CrumbNamesIgnoreDepth(t: Table, c: seq<Id>, k: nat, m: nat)
    ensures CrumbNames(t, Crumbs(t, c, k)) == CrumbNames(t, Crumbs(t, c, m))
  {
    if c != [] {
      CrumbNamesIgnoreDepth(t, c[1..], k + 1, m + 1);
      var at := (j: nat) => if Live(t, c[0]) then [Crumb(c[0], j)] else [];
      CrumbNamesAppend(t, Crumbs(t, c[1..], k + 1), at(k));
      CrumbNamesAppend(t, Crumbs(t, c[1..], m + 1), at(m));
      assert Crumbs(t, c, k) == Crumbs(t, c[1..], k + 1) + at(k);
      assert Crumbs(t, c, m) == Crumbs(t, c[1..], m + 1) + at(m);
    }
  }

  /** The names on the breadcrumb, for a row whose parent is `p`. */
  lemma BreadcrumbNames(t: Table, x: Id)
    requires Forest(t) && Live(t, x)
    ensures CrumbNames(t, Breadcrumb(t, x)) == NamesAbove(t, x) + [t[x].name]
  {
    var c := Chain(t, x);
    assert Crumbs(t, c, 0) == Crumbs(t, c[1..], 1) + [Crumb(x, 0)];
    CrumbNamesAppend(t, Crumbs(t, c[1..], 1), [Crumb(x, 0)]);
    assert CrumbNames(t, [Crumb(x, 0)]) == [t[x].name] + CrumbNames(t, []);
    CrumbNamesIgnoreDepth(t, c[1..], 1, 0);
    if t[x].parentId.Some? {
      ParentChain(t, x);
      assert c[1..] == Chain(t, t[x].parentId.value);
    }
  }

  lemma EndsWith(names: seq<string>, front: seq<string>, last: string)
    ensures names == front + [last] <==> names != [] && names[|names| - 1] == last && names[..|names| - 1] == front
  {
  }

  /** The breadcrumb of the row above, or nothing above a root. */
  function NamesAbove(t: Table, x: Id): seq<string>
    requires Forest(t) && x in t
  {
    match t[x].parentId
    case None => []
    case Some(p) =>
      ParentChain(t, x);
      CrumbNames(t, Breadcrumb(t, p))
  }

  lemma LocatedBelow(t: Table, x: Id, names: seq<string>)
    requires x in t
    ensures Located(t, Some(x), names) <==>
            && IsLiveFolder(t, x) && names != [] && names[|names| - 1] == t[x].name
            && Located(t, t[x].parentId, names[..|names| - 1])
  {
  }

  lemma LiveFoldersAbove(t: Table, x: Id)
    requires Forest(t) && x in t
    ensures t[x].parentId.Some? ==> t[x].parentId.value in t
    ensures AllLiveFolders(t, Chain(t, x)) <==>
            IsLiveFolder(t, x) && (t[x].parentId.Some? ==> AllLiveFolders(t, Chain(t, t[x].parentId.value)))
  {
    if t[x].parentId.Some? {
      ParentChain(t, x);
    } else {
      assert Chain(t, x) == [x];
    }
  }

  /**
   A folder lies at `names` exactly if it and all rows above it are live folders and the
   names on its breadcrumb are `names`.
   */
  lemma {:induction false} LocatedIsBreadcrumb(t: Table, x: Id, names: seq<string>)
    requires Forest(t) && x in t
    ensures Located(t, Some(x), names) <==>
            AllLiveFolders(t, Chain(t, x)) && CrumbNames(t, Breadcrumb(t, x)) == names
    decreases |Chain(t, x)|
  {
    LocatedBelow(t, x, names);
    LiveFoldersAbove(t, x);
    if IsLiveFolder(t, x) && names != [] {
      BreadcrumbNames(t, x);
      EndsWith(names, NamesAbove(t, x), t[x].name);
      if t[x].parentId.Some? {
        ParentChain(t, x);
        LocatedIsBreadcrumb(t, t[x].parentId.value, names[..|names| - 1]);
      }
    } else if IsLiveFolder(t, x) {
      BreadcrumbNames(t, x);
    }
  }

  lemma {:induction false} LocatedIsUnique(t: Table, a: Option<Id>, b: Option<Id>, names: seq<string>)
    requires UniqueFolderNames(t) && Located(t, a, names) && Located(t, b, names)
    ensures a == b
    decreases |names|
  {
    if names != [] {
      LocatedIsUnique(t, t[a.value].parentId, t[b.value].parentId, names[..|names| - 1]);
    }
  }

  lemma {:induction false} LocatedPrefix(t: Table, a: Option<Id>, names: seq<string>, i: nat) returns (at: Option<Id>)
    requires Located(t, a, names) && i < |names|
    ensures Located(t, at, names[..i])
    ensures exists x :: IsFolderNamed(t, x, at, names[i])
    decreases |names|
  {
    var n := |names| - 1;
    if i == n {
      at := t[a.value].parentId;
      assert IsFolderNamed(t, a.value, at, names[i]);
    } else {
      at := LocatedPrefix(t, t[a.value].parentId, names[..n], i);
      assert names[..n][..i] == names[..i];
    }
  }

  predicate HasFolder(t: Table, at: Option<Id>, name: string) {
    exists x | x in t :: IsFolderNamed(t, x, at, name)
  }

  /** A descent along `names` may get to `at` after `i` names and find no folder for the next one. */
  predicate DeadEnd(t: Table, names: seq<string>, i: nat, at: Option<Id>) {
    i < |names| && Located(t, at, names[..i]) && !HasFolder(t, at, names[i])
  }

  /** Places that the same prefix of `names` leads to agree on whether the next folder is there. */
  ghost predicate AlikeAlong(t: Table, names: seq<string>) {
    forall i, a, b :: 0 <= i < |names| && AlsoAt(t, names, i, a, b) && HasFolder(t, a, names[i]) ==>
      HasFolder(t, b, names[i])
  }

  predicate AlsoAt(t: Table, names: seq<string>, i: nat, a: Option<Id>, b: Option<Id>)
    requires i <= |names|
  {
    Located(t, a, names[..i]) && Located(t, b, names[..i])
  }

  /** If some folder lies at a path, a descent can miss it exactly if the places on the way are not alike. */
  lemma LookupIsExact(t: Table, x: Id, names: seq<string>)
    requires Located(t, Some(x), names)
    ensures AlikeAlong(t, names) <==> forall i, at :: !DeadEnd(t, names, i, at)
  {
    if AlikeAlong(t, names) {
      forall i: nat, at ensures !DeadEnd(t, names, i, at) {
        if i < |names| && Located(t, at, names[..i]) {
          var a := LocatedPrefix(t, Some(x), names, i);
          assert AlsoAt(t, names, i, a, at);
        }
      }
    }
    if forall i, at :: !DeadEnd(t, names, i, at) {
      forall i, a, b | 0 <= i < |names| && AlsoAt(t, names, i, a, b) && HasFolder(t, a, names[i])
        ensures HasFolder(t, b, names[i])
      {
        assert !DeadEnd(t, names, i, b);
      }
    }
  }

  /** Folders at the same path have child folders of the same names. */
  ghost predicate AlikeFolders(t: Table) {
    forall names :: AlikeAlong(t, names)
  }

  /** No folder lies at a path on which a descent can end early. */
  ghost predicate NothingMissed(t: Table, names: seq<string>) {
    forall i, at, x :: DeadEnd(t, names, i, at) ==> !Located(t, Some(x), names)
  }

  /** The lookup answers every path correctly, whatever it picks, exactly if folders at the same path are alike. */
  lemma LookupIsExactEverywhere(t: Table)
    ensures AlikeFolders(t) <==> forall names :: NothingMissed(t, names)
  {
    if AlikeFolders(t) {
      forall names ensures NothingMissed(t, names) {
        assert AlikeAlong(t, names);
        if x :| Located(t, Some(x), names) {
          LookupIsExact(t, x, names);
        }
      }
    }
    if forall names :: NothingMissed(t, names) {
      forall names, i, a, b | 0 <= i < |names| && AlsoAt(t, names, i, a, b) && HasFolder(t, a, names[i])
        ensures HasFolder(t, b, names[i])
      {
        ChildOfLocated(t, names, i, a, b);
      }
    }
  }

  lemma ChildOfLocated(t: Table, names: seq<string>, i: nat, a: Option<Id>, b: Option<Id>)
    requires i < |names| && AlsoAt(t, names, i, a, b) && HasFolder(t, a, names[i])
    requires forall ns :: NothingMissed(t, ns)
    ensures HasFolder(t, b, names[i])
  {
    var ns := names[..i + 1];
    var x :| x in t && IsFolderNamed(t, x, a, names[i]);
    assert ns[..i] == names[..i] && ns[i] == names[i];
    assert Located(t, Some(x), ns);
    assert NothingMissed(t, ns);
    assert !DeadEnd(t, ns, i, b);
  }

  /** Unique sibling names are enough. */
  lemma UniqueNamesAreAlike(t: Table)
    requires UniqueFolderNames(t)
    ensures AlikeFolders(t)
  {
    forall names, i, a, b | 0 <= i < |names| && AlsoAt(t, names, i, a, b) ensures a == b {
      LocatedIsUnique(t, a, b, names[..i]);
    }
  }

  // ---- paths after an edit ----

  /** The path of a folder that is not below the edited row stays. */
  lemma {:induction false} RenameSparesOthers(t: Table, id: Id, change: Change, d: Option<Id>, names: seq<string>)
    requires Forest(t) && Live(t, id)
    requires d.Some? ==> d.value in t && !Below(t, d.value, id)
    ensures Located(After(t, Edit(id, change)), d, names) <==> Located(t, d, names)
    decreases |names|
  {
    if names != [] && d.Some? {
      OnOwnChain(t, d.value);
      var parent := t[d.value].parentId;
      if parent.Some? {
        ParentChain(t, d.value);
      }
      RenameSparesOthers(t, id, change, parent, names[..|names| - 1]);
    }
  }

  /**
   A folder `m` levels below the edited row (or the row itself, with `m` zero) lies at exactly
   the old paths with the new name put at the place of the row.
   */
  lemma {:induction false} RenameMovesPaths(t: Table, id: Id, change: Change, d: Id, m: nat, names: seq<string>)
    requires Forest(t) && Live(t, id) && d in t && m < |Chain(t, d)| && Chain(t, d)[m] == id
    ensures var t' := After(t, Edit(id, change));
            var n := |names| - 1 - m;
            Located(t', Some(d), names) <==>
            n >= 0 && names[n] == t'[id].name && Located(t, Some(d), names[n := t[id].name])
    decreases |names|
  {
    var n := |names| - 1 - m;
    ChainHasNoRepeats(t, d, Chain(t, d));
    assert Chain(t, d)[0] == d;
    if names == [] {
    } else if t[d].parentId.None? {
      RenameSparesOthers(t, id, change, None, names[..|names| - 1]);
    } else {
      ParentChain(t, d);
      var p, front := t[d].parentId.value, names[..|names| - 1];
      if m == 0 {
        assert !Below(t, p, id);
        RenameSparesOthers(t, id, change, Some(p), front);
        assert names[n := t[id].name][..|names| - 1] == front;
      } else {
        RenameMovesPaths(t, id, change, p, m - 1, front);
        if n >= 0 {
          assert names[n := t[id].name][..|names| - 1] == front[n := t[id].name];
        }
      }
    }
  }

  function PlainFolder(name: string, parent: Option<Id>, deleted: bool): Node {
    Node(name, Folder, parent, deleted, true, None, None, None)
  }

  /** Without unique names the descent can end at a folder that lacks the next child although the path exists. */
  lemma AmbiguousNamesCanMissTheFolder()
    ensures exists t: Table, names, a, y :: Forest(t) && |names| == 2
              && Located(t, Some(a), names[..1])
              && (forall x :: !IsFolderNamed(t, x, Some(a), names[1]))
              && Located(t, Some(y), names)
  {
    var t: Table := map[1 := PlainFolder("a", None, false), 2 := PlainFolder("a", None, false),
                        3 := PlainFolder("b", Some(2), false)];
    var names := ["a", "b"];
    assert IsChain(t, 1, [1]) && IsChain(t, 2, [2]);
    assert [3, 2][1..] == [2];
    assert IsChain(t, 3, [3, 2]);
    assert Forest(t);
    assert names[..1] == ["a"] && ["a"][..0] == [];
    assert Located(t, None, []);
    assert Located(t, Some(1), names[..1]);
    assert Located(t, Some(2), names[..1]);
    assert Located(t, Some(3), names);
  }

  /** A live folder under a deleted one shows a breadcrumb that no path lookup can follow. */
  lemma DeletedParentHidesFolder(t: Table, x: Id, p: Id, names: seq<string>)
    requires Forest(t) && x in t && t[x].parentId == Some(p) && p in t && t[p].deleted
    ensures !Located(t, Some(x), names)
  {
    LocatedIsBreadcrumb(t, x, names);
    ParentChain(t, x);
    assert p in Chain(t, x);
  }
}
