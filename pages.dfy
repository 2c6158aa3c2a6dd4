/**
 * The page-file to route-path derivation of `getPages` in
 * src/common/get-pages.ts: a chain of `String.prototype.replace` calls on
 * the file path, and the filter that drops files without a handler.
 */
module Pages {
  import opened Wrappers
  import opened TrailingSlash
  import opened Pattern

  /** `needle` occurs in `s` at position `i`. */
  predicate OccursAt(s: string, needle: string, i: nat) {
    i + |needle| <= |s| && s[i..i + |needle|] == needle
  }

  /** The first position at or after `from` where `needle` occurs in `s`. */
  function IndexOf(s: string, needle: string, from: nat): (r: Option<nat>)
    ensures r.Some? ==> from <= r.value && OccursAt(s, needle, r.value)
    ensures r.Some? ==> forall j :: from <= j < r.value ==> !OccursAt(s, needle, j)
    ensures r.None? ==> forall j :: from <= j ==> !OccursAt(s, needle, j)
    decreases |s| - from
  {
    if from + |needle| > |s| then None
    else if s[from..from + |needle|] == needle then Some(from)
    else IndexOf(s, needle, from + 1)
  }

  /**
   * Line 23: `replace` with a string pattern removes only the first
   * occurrence of the directory, and leaves the path as it is when the
   * directory does not occur in it.
   */
  function RemoveFirst(s: string, needle: string): string {
    match IndexOf(s, needle, 0)
    case None => s
    case Some(i) => s[..i] + s[i + |needle|..]
  }

  /** The characters of the class `[a-z0-9_\-]` of line 12. */
  predicate IsNameChar(c: char) {
    ('a' <= c <= 'z') || ('0' <= c <= '9') || c == '_' || c == '-'
  }

  /** A name the bracket expression of line 12 captures and line 29 converts: non-empty. */
  predicate IsParamName(s: string) {
    |s| > 0 && forall i :: 0 <= i < |s| ==> IsNameChar(s[i])
  }

  /** The length of the longest prefix of `s` made of name characters. */
  function NameLength(s: string): (n: nat)
    ensures n <= |s|
    ensures forall i :: 0 <= i < n ==> IsNameChar(s[i])
    ensures n < |s| ==> !IsNameChar(s[n])
  {
    if s == [] || !IsNameChar(s[0]) then 0 else 1 + NameLength(s[1..])
  }

  /**
   * Line 29 with the global expression of line 12: scanning left to right,
   * every `[` followed by name characters and `]` is replaced, by `:name`
   * when the name is non-empty and by itself (`[]`) when it is empty;
   * scanning resumes after the `]`. Any other character is kept.
   */
  function ConvertBrackets(s: string): (r: string)
    ensures |r| <= |s|
    decreases |s|
  {
    if s == [] then []
    else if s[0] == '[' && 1 + NameLength(s[1..]) < |s| && s[1 + NameLength(s[1..])] == ']' then
      var n := NameLength(s[1..]);
      (if n > 0 then ":" + s[1..1 + n] else "[]") + ConvertBrackets(s[n + 2..])
    else [s[0]] + ConvertBrackets(s[1..])
  }

  /** The expression `\..+$` of line 35 matches at `i`: a `.` followed by at least one character and no line terminator up to the end. */
  predicate ExtensionAt(s: string, i: nat) {
    i + 1 < |s| && s[i] == '.' && NoLineTerminator(s[i + 1..])
  }

  /** The leftmost position at or after `from` where `\..+$` matches. */
  function ExtensionStart(s: string, from: nat): (r: Option<nat>)
    ensures r.Some? ==> from <= r.value && ExtensionAt(s, r.value)
    ensures r.Some? ==> forall j :: from <= j < r.value ==> !ExtensionAt(s, j)
    ensures r.None? ==> forall j :: from <= j ==> !ExtensionAt(s, j)
    decreases |s| - from
  {
    if from + 1 >= |s| then None
    else if ExtensionAt(s, from) then Some(from)
    else ExtensionStart(s, from + 1)
  }

  /** Line 35: everything from the leftmost matching `.` to the end is removed. */
  function StripExtension(s: string): string {
    match ExtensionStart(s, 0)
    case None => s
    case Some(i) => s[..i]
  }

  predicate EndsWithIndex(s: string) {
    |s| >= 6 && s[|s| - 6..] == "/index"
  }

  /** Line 41: a trailing `/index` becomes `/`. */
  function ReplaceIndex(s: string): string {
    if EndsWithIndex(s) then s[..|s| - 6] + "/" else s
  }

  /**
   * Line 47: `.*` matches the text before the first line terminator (the
   * whole path when it has none), and `stripTrailingSlash` rewrites that
   * text.
   */
  function StripFirstLine(s: string): string {
    var n := LineLength(s);
    StripTrailingSlash(s[..n]) + s[n..]
  }

  /** Lines 17-47: the route path of a page file found under `directory`. */
  function RoutePath(directory: string, filePath: string): string {
    StripFirstLine(ReplaceIndex(StripExtension(ConvertBrackets(RemoveFirst(filePath, directory)))))
  }

  /** A page: its route path and the handler its module exports by default. */
  datatype Page<H> = Page(path: string, handler: H)

  /**
   * Lines 16-57: one page per file, in file order, dropping every file
   * whose import yields no handler (`None` stands for a failed import or a
   * missing default export).
   */
  function GetPages<H>(directory: string, files: seq<(string, Option<H>)>): (pages: seq<Page<H>>)
    ensures |pages| <= |files|
  {
    if files == [] then [] else PageOf(directory, files[0]) + GetPages(directory, files[1..])
  }

  /** Every page comes from one of the files: it has that file's route and the handler its import gave. */
  lemma {:induction false} GetPagesFromFiles<H>(directory: string, files: seq<(string, Option<H>)>)
    ensures forall i :: 0 <= i < |GetPages(directory, files)| ==> PageOfFile(directory, files, GetPages(directory, files)[i])
  {
    if files != [] {
      var rest := GetPages(directory, files[1..]);
      var first := PageOf(directory, files[0]);
      var all := GetPages(directory, files);
      assert all == first + rest by {
        GetPagesStep(directory, files);
      }
      forall i | 0 <= i < |all| ensures PageOfFile(directory, files, all[i]) {
        if i < |first| {
          assert all[i] == first[0];
          PageOfFirstFile(directory, files);
        } else {
          var k := i - |first|;
          assert all[i] == rest[k];
          assert PageOfFile(directory, files[1..], rest[k]) by {
            GetPagesFromFiles(directory, files[1..]);
          }
          PageOfLaterFile(directory, files, rest[k]);
        }
      }
    }
  }

  /** Some file of `files` has the page's handler and the page's route. */
  ghost predicate PageOfFile<H>(directory: string, files: seq<(string, Option<H>)>, page: Page<H>) {
    exists j :: 0 <= j < |files| && files[j].1 == Some(page.handler) && page.path == RoutePath(directory, files[j].0)
  }

  lemma PageOfFirstFile<H>(directory: string, files: seq<(string, Option<H>)>)
    requires files != [] && files[0].1.Some?
    ensures PageOfFile(directory, files, PageOf(directory, files[0])[0])
  {
    var page := PageOf(directory, files[0])[0];
    assert files[0].1 == Some(page.handler) && page.path == RoutePath(directory, files[0].0);
  }

  lemma PageOfLaterFile<H>(directory: string, files: seq<(string, Option<H>)>, page: Page<H>)
    requires files != [] && PageOfFile(directory, files[1..], page)
    ensures PageOfFile(directory, files, page)
  {
    var j :| 0 <= j < |files[1..]| && files[1..][j].1 == Some(page.handler) && page.path == RoutePath(directory, files[1..][j].0);
    assert files[j + 1] == files[1..][j];
  }

  /** Pages are dropped only for files without a handler: with a handler for every file, every file gives a page, in order. */
  lemma GetPagesKeepsLoaded<H>(directory: string, files: seq<(string, Option<H>)>)
    requires forall j :: 0 <= j < |files| ==> files[j].1.Some?
    ensures |GetPages(directory, files)| == |files|
    ensures forall j :: 0 <= j < |files| ==>
      GetPages(directory, files)[j] == Page(RoutePath(directory, files[j].0), files[j].1.value)
  {
    GetPagesLoadedLength(directory, files);
    forall j | 0 <= j < |files|
      ensures GetPages(directory, files)[j] == Page(RoutePath(directory, files[j].0), files[j].1.value)
    {
      GetPagesLoadedAt(directory, files, j);
    }
  }

  lemma {:induction false} GetPagesLoadedLength<H>(directory: string, files: seq<(string, Option<H>)>)
    requires forall j :: 0 <= j < |files| ==> files[j].1.Some?
    ensures |GetPages(directory, files)| == |files|
  {
    if files != [] {
      GetPagesLoadedLength(directory, files[1..]);
      GetPagesStep(directory, files);
    }
  }

  /** The page at `j` is the page of the file at `j`: the files before it give exactly `j` pages. */
  lemma GetPagesLoadedAt<H>(directory: string, files: seq<(string, Option<H>)>, j: nat)
    requires forall j :: 0 <= j < |files| ==> files[j].1.Some?
    requires j < |files|
    ensures j < |GetPages(directory, files)|
    ensures GetPages(directory, files)[j] == Page(RoutePath(directory, files[j].0), files[j].1.value)
  {
    var before, after := files[..j], [files[j]] + files[j + 1..];
    assert files == before + after;
    assert after[0] == files[j] && after[1..] == files[j + 1..];
    GetPagesLoadedLength(directory, before);
    GetPagesStep(directory, after);
    GetPagesAppend(directory, before, after);
  }

  /** One step of `GetPages`: the first file's page, if any, then the pages of the rest. */
  lemma GetPagesStep<H>(directory: string, files: seq<(string, Option<H>)>)
    requires files != []
    ensures GetPages(directory, files) == PageOf(directory, files[0]) + GetPages(directory, files[1..])
  {
  }

  /** The page a file gives: none without a handler. */
  function PageOf<H>(directory: string, file: (string, Option<H>)): (ps: seq<Page<H>>)
    ensures |ps| <= 1
  {
    match file.1
    case None => []
    case Some(h) => [Page(RoutePath(directory, file.0), h)]
  }

  /** The pages of two lists of files are the pages of each, in order. */
  lemma {:induction false} GetPagesAppend<H>(directory: string, a: seq<(string, Option<H>)>, b: seq<(string, Option<H>)>)
    ensures GetPages(directory, a + b) == GetPages(directory, a) + GetPages(directory, b)
  {
    if a == [] {
      assert a + b == b;
    } else {
      var ab := a + b;
      assert ab[0] == a[0] && ab[1..] == a[1..] + b;
      GetPagesAppend(directory, a[1..], b);
      var first := PageOf(directory, a[0]);
      GetPagesStep(directory, a);
      GetPagesStep(directory, ab);
      Reassociate(GetPages(directory, a + b), GetPages(directory, a), first,
        GetPages(directory, a[1..]), GetPages(directory, a[1..] + b), GetPages(directory, b));
    }
  }

  /** A file without a handler contributes nothing: it can be removed from the list without changing the result. */
  lemma GetPagesDropsUnloaded<H>(directory: string, a: seq<(string, Option<H>)>, f: string, b: seq<(string, Option<H>)>)
    ensures GetPages(directory, a + [(f, None)] + b) == GetPages(directory, a + b)
  {
    var x: seq<(string, Option<H>)> := [(f, None)];
    GetPagesAppend(directory, a + x, b);
    GetPagesAppend(directory, a, x);
    GetPagesAppend(directory, a, b);
    assert x[1..] == [];
    assert GetPages(directory, x) == [];
    assert GetPages(directory, a) + [] == GetPages(directory, a);
  }

  /** The directory is stripped from every path it begins. */
  lemma RemoveLeadingDirectory(directory: string, rel: string)
    ensures RemoveFirst(directory + rel, directory) == rel
  {
    var s := directory + rel;
    assert s[0..|directory|] == directory;
    assert IndexOf(s, directory, 0) == Some(0);
    assert s[|directory|..] == rel;
  }

  /** A path in which the directory does not occur is left as it is. */
  lemma RemoveAbsentDirectory(directory: string, s: string)
    requires forall j :: !OccursAt(s, directory, j)
    ensures RemoveFirst(s, directory) == s
  {
  }

  /** Text without `[` passes through the bracket conversion unchanged. */
  lemma {:induction false} ConvertPlain(a: string, b: string)
    requires '[' !in a
    ensures ConvertBrackets(a + b) == a + ConvertBrackets(b)
  {
    if a == [] {
      assert a + b == b;
    } else {
      var s := a + b;
      assert s[0] == a[0] && s[1..] == a[1..] + b;
      assert '[' !in a[1..] by {
        forall c | c in a[1..] ensures c != '[' {
          assert c in a;
        }
      }
      ConvertPlain(a[1..], b);
      assert a == [a[0]] + a[1..];
    }
  }

  /** `[name]` with a valid name becomes `:name`. */
  lemma ConvertParam(name: string, b: string)
    requires IsParamName(name)
    ensures ConvertBrackets("[" + name + "]" + b) == ":" + name + ConvertBrackets(b)
  {
    var s := "[" + name + "]" + b;
    var n := |name|;
    assert NameLength(s[1..]) == n by {
      assert s[1..] == name + ("]" + b);
      NameLengthOfName(name, "]" + b);
    }
    assert s[0] == '[' && s[1 + n] == ']';
    assert s[1..1 + n] == name && s[n + 2..] == b;
    ConvertNamedStep(s, n);
  }

  /** One step of `ConvertBrackets` on a `[name]` at the head of the text. */
  lemma ConvertNamedStep(s: string, n: nat)
    requires s != [] && s[0] == '[' && n == NameLength(s[1..]) > 0
    requires 1 + n < |s| && s[1 + n] == ']'
    ensures ConvertBrackets(s) == ":" + s[1..1 + n] + ConvertBrackets(s[n + 2..])
  {
  }

  /** `[]` is matched by the expression but kept as it is. */
  lemma ConvertEmptyBrackets(b: string)
    ensures ConvertBrackets("[]" + b) == "[]" + ConvertBrackets(b)
  {
    var s := "[]" + b;
    assert s[1..] == "]" + b;
    assert NameLength(s[1..]) == 0;
    assert s[2..] == b;
  }

  /**
   * A `[` that no `]` closes right after its run of name characters is
   * kept, whether a non-name character or the end of the text comes first:
   * for example `[Id]` or `[ab/`.
   */
  lemma ConvertUnmatchedBracket(b: string)
    requires NameLength(b) == |b| || b[NameLength(b)] != ']'
    ensures ConvertBrackets("[" + b) == "[" + ConvertBrackets(b)
  {
    var s := "[" + b;
    assert s[1..] == b;
    assert s[0] == '[';
    if NameLength(b) < |b| {
      assert s[1 + NameLength(b)] == b[NameLength(b)];
    }
  }

  lemma NameLengthOfName(name: string, rest: string)
    requires forall i :: 0 <= i < |name| ==> IsNameChar(name[i])
    requires rest == [] || !IsNameChar(rest[0])
    ensures NameLength(name + rest) == |name|
  {
    var s := name + rest;
    assert forall i :: 0 <= i < |name| ==> s[i] == name[i];
    assert |name| < |s| ==> s[|name|] == rest[0];
  }

  /** With no `.` before it, a `.` followed by a one-line extension is where the path is cut. */
  lemma StripExtensionAt(stem: string, ext: string)
    requires '.' !in stem && |ext| > 0 && NoLineTerminator(ext)
    ensures StripExtension(stem + "." + ext) == stem
  {
    var s := stem + "." + ext;
    forall j | 0 <= j < |stem|
      ensures !ExtensionAt(s, j)
    {
      assert s[j] == stem[j];
    }
    assert s[|stem| + 1..] == ext;
    assert ExtensionAt(s, |stem|);
    ExtensionStartSkips(s, 0, |stem|);
    assert s[..|stem|] == stem;
  }

  lemma {:induction false} ExtensionStartSkips(s: string, from: nat, k: nat)
    requires from <= k && ExtensionAt(s, k)
    requires forall j :: from <= j < k ==> !ExtensionAt(s, j)
    ensures ExtensionStart(s, from) == Some(k)
    decreases k - from
  {
    if from < k {
      ExtensionStartSkips(s, from + 1, k);
    }
  }

  /** A path with no `.` keeps its full length. */
  lemma StripExtensionWithoutDot(s: string)
    requires '.' !in s
    ensures StripExtension(s) == s
  {
    assert forall j :: 0 <= j < |s| ==> s[j] != '.';
  }

  lemma ReplaceIndexSuffix(stem: string)
    ensures ReplaceIndex(stem + "/index") == stem + "/"
  {
    var s := stem + "/index";
    assert s[|s| - 6..] == "/index";
    assert s[..|s| - 6] == stem;
  }

  /** For a one-line path, the last step is exactly `stripTrailingSlash`. */
  lemma StripFirstLineOneLine(s: string)
    requires NoLineTerminator(s)
    ensures StripFirstLine(s) == StripTrailingSlash(s)
  {
    var n := LineLength(s);
    assert n == |s|;
    assert s[..n] == s && s[n..] == [];
    assert StripTrailingSlash(s) + [] == StripTrailingSlash(s);
  }

  /**
   * The route path of a page file in the directory: once the brackets are
   * converted, a `.` with a one-line extension after it ends the stem, a
   * trailing `/index` of the stem becomes `/`, and one trailing slash goes.
   */
  lemma RoutePathOfFile(directory: string, rel: string, stem: string, ext: string)
    requires ConvertBrackets(rel) == stem + "." + ext
    requires '.' !in stem && NoLineTerminator(stem) && |ext| > 0 && NoLineTerminator(ext)
    ensures RoutePath(directory, directory + rel) == StripTrailingSlash(ReplaceIndex(stem))
  {
    RemoveLeadingDirectory(directory, rel);
    StripExtensionAt(stem, ext);
    var r := ReplaceIndex(stem);
    assert NoLineTerminator(r) by {
      if EndsWithIndex(stem) {
        forall c | c in r ensures !IsLineTerminator(c) {
          if c in stem[..|stem| - 6] {
            var k :| 0 <= k < |stem| - 6 && stem[..|stem| - 6][k] == c;
            assert stem[k] == c;
          }
        }
      }
    }
    StripFirstLineOneLine(r);
  }

  lemma ConvertTwoParams(a: string, n1: string, b: string, n2: string, c: string)
    requires '[' !in a && '[' !in b && '[' !in c
    requires IsParamName(n1) && IsParamName(n2)
    ensures ConvertBrackets(a + ("[" + n1 + "]" + (b + ("[" + n2 + "]" + c)))) == a + ":" + n1 + b + ":" + n2 + c
  {
    var rest := b + ("[" + n2 + "]" + c);
    var converted := b + ":" + n2 + c;
    assert ConvertBrackets(rest) == converted by {
      ConvertOneParam(b, n2, c);
    }
    var head := "[" + n1 + "]" + rest;
    assert ConvertBrackets(head) == ":" + n1 + converted by {
      ConvertParam(n1, rest);
    }
    assert ConvertBrackets(a + head) == a + ConvertBrackets(head) by {
      ConvertPlain(a, head);
    }
    ParamsSpelling(a, n1, b, n2, c);
  }

  lemma ParamsSpelling(a: string, n1: string, b: string, n2: string, c: string)
    ensures a + (":" + n1 + (b + ":" + n2 + c)) == a + ":" + n1 + b + ":" + n2 + c
  {
  }

  lemma ConvertOneParam(a: string, n: string, c: string)
    requires '[' !in a && '[' !in c && IsParamName(n)
    ensures ConvertBrackets(a + ("[" + n + "]" + c)) == a + ":" + n + c
  {
    var head := "[" + n + "]" + c;
    assert ConvertBrackets(head) == ":" + n + c by {
      ConvertNone(c);
      ConvertParam(n, c);
    }
    assert ConvertBrackets(a + head) == a + ConvertBrackets(head) by {
      ConvertPlain(a, head);
    }
    assert a + (":" + n + c) == a + ":" + n + c;
  }

  lemma ConvertNone(a: string)
    requires '[' !in a
    ensures ConvertBrackets(a) == a
  {
    ConvertPlain(a, "");
    assert a + "" == a;
  }

  /** A file path with no brackets: its stem, index rule and slash rule decide the route. */
  lemma PlainFile(directory: string, stem: string, ext: string)
    requires '[' !in stem && '.' !in stem && NoLineTerminator(stem)
    requires |ext| > 0 && '[' !in ext && NoLineTerminator(ext)
    ensures RoutePath(directory, directory + (stem + "." + ext)) == StripTrailingSlash(ReplaceIndex(stem))
  {
    ConvertNone(stem + "." + ext);
    RoutePathOfFile(directory, stem + "." + ext, stem, ext);
  }

  /** A file path with one bracketed name. */
  lemma OneParamFile(directory: string, a: string, n: string, c: string, ext: string)
    requires '[' !in a && '[' !in c && '.' !in a && '.' !in c && IsParamName(n)
    requires NoLineTerminator(a) && NoLineTerminator(c)
    requires |ext| > 0 && '[' !in ext && NoLineTerminator(ext)
    ensures RoutePath(directory, directory + (a + ("[" + n + "]" + (c + "." + ext)))) ==
      StripTrailingSlash(ReplaceIndex(a + ":" + n + c))
  {
    ConvertOneParam(a, n, c + "." + ext);
    var stem := a + ":" + n + c;
    assert a + ":" + n + (c + "." + ext) == stem + "." + ext;
    NoDotInName(n);
    RoutePathOfFile(directory, a + ("[" + n + "]" + (c + "." + ext)), stem, ext);
  }

  /** A file path with two bracketed names. */
  lemma TwoParamFile(directory: string, a: string, n1: string, b: string, n2: string, c: string, ext: string)
    requires '[' !in a && '[' !in b && '[' !in c && '.' !in a && '.' !in b && '.' !in c
    requires IsParamName(n1) && IsParamName(n2)
    requires NoLineTerminator(a) && NoLineTerminator(b) && NoLineTerminator(c)
    requires |ext| > 0 && '[' !in ext && NoLineTerminator(ext)
    ensures RoutePath(directory, directory + (a + ("[" + n1 + "]" + (b + ("[" + n2 + "]" + (c + "." + ext)))))) ==
      StripTrailingSlash(ReplaceIndex(a + ":" + n1 + b + ":" + n2 + c))
  {
    ConvertTwoParams(a, n1, b, n2, c + "." + ext);
    var stem := a + ":" + n1 + b + ":" + n2 + c;
    assert a + ":" + n1 + b + ":" + n2 + (c + "." + ext) == stem + "." + ext;
    NoDotInName(n1);
    NoDotInName(n2);
    RoutePathOfFile(directory, a + ("[" + n1 + "]" + (b + ("[" + n2 + "]" + (c + "." + ext)))), stem, ext);
  }

  lemma NoDotInName(n: string)
    requires IsParamName(n)
    ensures '.' !in n && NoLineTerminator(n)
  {
    assert forall i :: 0 <= i < |n| ==> IsNameChar(n[i]);
  }

  /** The worked example of the comments at lines 19, 25, 31, 37 and 43: an index page under two bracketed directories. */
  lemma NestedIndexExample(directory: string)
    ensures RoutePath(directory, directory + "/nested/[directory]/in/[here]/index.tsx") == "/nested/:directory/in/:here"
  {
    NestedSpelling();
    NestedPieces("/index");
    ReplaceIndexSuffix("/nested/:directory/in/:here");
    TrailingSlashRemoved("/nested/:directory/in/:here");
    TwoParamFile(directory, "/nested/", "directory", "/in/", "here", "/index", "tsx");
  }

  /** The worked example of the comments at lines 20, 26, 32, 38 and 44: a named page under two bracketed directories. */
  lemma NestedPageExample(directory: string)
    ensures RoutePath(directory, directory + "/nested/[directory]/in/[here]/about.tsx") == "/nested/:directory/in/:here/about"
  {
    NestedSpelling();
    NestedPieces("/about");
    KeptPath("/nested/:directory/in/:here/about");
    TwoParamFile(directory, "/nested/", "directory", "/in/", "here", "/about", "tsx");
  }

  lemma NestedSpelling()
    ensures "/nested/" + ("[" + "directory" + "]" + ("/in/" + ("[" + "here" + "]" + ("/index" + "." + "tsx"))))
      == "/nested/[directory]/in/[here]/index.tsx"
    ensures "/nested/" + ("[" + "directory" + "]" + ("/in/" + ("[" + "here" + "]" + ("/about" + "." + "tsx"))))
      == "/nested/[directory]/in/[here]/about.tsx"
    ensures "/nested/" + ":" + "directory" + "/in/" + ":" + "here" + "/index" == "/nested/:directory/in/:here" + "/index"
    ensures "/nested/" + ":" + "directory" + "/in/" + ":" + "here" + "/about" == "/nested/:directory/in/:here/about"
  {
    NestedFileSpelling("/index.tsx");
    NestedFileSpelling("/about.tsx");
    assert "/index" + "." + "tsx" == "/index.tsx";
    assert "/about" + "." + "tsx" == "/about.tsx";
    assert "/nested/[directory]/in/[here]" + "/index.tsx" == "/nested/[directory]/in/[here]/index.tsx";
    assert "/nested/[directory]/in/[here]" + "/about.tsx" == "/nested/[directory]/in/[here]/about.tsx";
    NestedRouteSpelling("/index");
    NestedRouteSpelling("/about");
    assert "/nested/:directory/in/:here" + "/about" == "/nested/:directory/in/:here/about";
  }

  lemma NestedPieces(leaf: string)
    requires leaf == "/index" || leaf == "/about"
    ensures IsParamName("directory") && IsParamName("here")
    ensures '[' !in "/nested/" && '[' !in "/in/" && '[' !in leaf && '[' !in "tsx"
    ensures '.' !in "/nested/" && '.' !in "/in/" && '.' !in leaf
    ensures NoLineTerminator("/nested/") && NoLineTerminator("/in/") && NoLineTerminator(leaf) && NoLineTerminator("tsx")
  {
  }

  lemma NestedFileSpelling(leaf: string)
    ensures "/nested/" + ("[" + "directory" + "]" + ("/in/" + ("[" + "here" + "]" + leaf)))
      == "/nested/[directory]/in/[here]" + leaf
  {
    assert "[" + "here" + "]" == "[here]";
    assert "[" + "directory" + "]" == "[directory]";
    assert "/nested/" + "[directory]" + "/in/" + "[here]" == "/nested/[directory]/in/[here]";
  }

  lemma NestedRouteSpelling(leaf: string)
    ensures "/nested/" + ":" + "directory" + "/in/" + ":" + "here" + leaf == "/nested/:directory/in/:here" + leaf
  {
    assert "/nested/" + ":" + "directory" + "/in/" + ":" + "here" == "/nested/:directory/in/:here";
  }

  /** A path ending neither in `/index` nor in `/` comes out as it is. */
  lemma KeptPath(stem: string)
    requires !EndsWithIndex(stem) && !EndsWithSlash(stem)
    ensures StripTrailingSlash(ReplaceIndex(stem)) == stem
  {
  }

  lemma TrailingSlashRemoved(dir: string)
    requires |dir| > 0 && dir[|dir| - 1] != '/'
    ensures StripTrailingSlash(dir + "/") == dir
  {
    assert (dir + "/")[..|dir|] == dir;
  }

  /** The worked example of the comments at lines 21, 27, 33 and 39: the root index page is `/`. */
  lemma RootIndexExample(directory: string)
    ensures RoutePath(directory, directory + "/index.tsx") == "/"
  {
    assert "" + "/index" + "." + "tsx" == "/index.tsx";
    IndexFile(directory, "", "tsx");
  }

  /** The worked example of the comments at lines 22, 28, 34, 40 and 46: a top-level page. */
  lemma TopLevelPageExample(directory: string)
    ensures RoutePath(directory, directory + "/about.tsx") == "/about"
  {
    assert "/about" + "." + "tsx" == "/about.tsx";
    KeptPath("/about");
    PlainFile(directory, "/about", "tsx");
  }

  /** A bracketed page of the examples directory listed by src/common/get-pages.test.ts. */
  lemma BracketPageExample(directory: string)
    ensures RoutePath(directory, directory + "/[page].tsx") == "/:page"
  {
    BracketPageSpelling();
    KeptPath("/:page");
    OneParamFile(directory, "/", "page", "", "tsx");
  }

  lemma BracketPageSpelling()
    ensures "/" + ("[" + "page" + "]" + ("" + "." + "tsx")) == "/[page].tsx"
    ensures "/" + ":" + "page" + "" == "/:page"
    ensures IsParamName("page") && NoLineTerminator("/") && NoLineTerminator("") && NoLineTerminator("tsx")
  {
  }

  /** The examples directory has both `contact.tsx` and `contact/index.tsx`, and both give `/contact`. */
  lemma ContactPagesExample(directory: string)
    ensures RoutePath(directory, directory + "/contact.tsx") == "/contact"
    ensures RoutePath(directory, directory + "/contact/index.tsx") == "/contact"
  {
    ContactPage(directory);
    ContactIndexPage(directory);
  }

  lemma ContactPage(directory: string)
    ensures RoutePath(directory, directory + "/contact.tsx") == "/contact"
  {
    assert "/contact" + "." + "tsx" == "/contact.tsx";
    KeptPath("/contact");
    PlainFile(directory, "/contact", "tsx");
  }

  lemma ContactIndexPage(directory: string)
    ensures RoutePath(directory, directory + "/contact/index.tsx") == "/contact"
  {
    assert "/contact" + "/index" + "." + "tsx" == "/contact/index.tsx";
    IndexFile(directory, "/contact", "tsx");
  }

  /**
   * An `index` file is the route of its folder: the folder path without a
   * trailing slash, or `/` for the top-level index.
   */
  lemma IndexFile(directory: string, folder: string, ext: string)
    requires '[' !in folder && '.' !in folder && NoLineTerminator(folder) && !EndsWithSlash(folder)
    requires |ext| > 0 && '[' !in ext && NoLineTerminator(ext)
    ensures RoutePath(directory, directory + (folder + "/index" + "." + ext)) == if folder == "" then "/" else folder
  {
    var stem := folder + "/index";
    assert '[' !in stem && '.' !in stem && NoLineTerminator(stem) by {
      assert forall i :: 0 <= i < |folder| ==> stem[i] == folder[i];
      assert forall i :: |folder| <= i < |stem| ==> stem[i] == "/index"[i - |folder|];
      assert forall c :: c in stem ==> exists i :: 0 <= i < |stem| && stem[i] == c;
      assert forall c :: c in folder ==> exists i :: 0 <= i < |folder| && folder[i] == c;
    }
    PlainFile(directory, stem, ext);
    ReplaceIndexSuffix(folder);
    if folder != "" {
      TrailingSlashRemoved(folder);
    }
  }

  /**
   * The cut at line 35 starts at the leftmost `.` of the whole path, so a
   * `.` in a directory name removes the rest of the path.
   */
  lemma DotInDirectoryExample(directory: string)
    ensures RoutePath(directory, directory + "/v1.2/about.tsx") == "/v1"
  {
    assert "/v1" + "." + "2/about.tsx" == "/v1.2/about.tsx";
    assert !EndsWithIndex("/v1") && !EndsWithSlash("/v1");
    PlainFile(directory, "/v1", "2/about.tsx");
  }

  /** A bracketed name with a character outside `[a-z0-9_-]` is not converted. */
  lemma UppercaseNameExample(directory: string)
    ensures RoutePath(directory, directory + "/[Id].tsx") == "/[Id]"
  {
    UppercaseSpelling();
    assert !EndsWithIndex("/[Id]") && !EndsWithSlash("/[Id]");
    UnconvertedBracket("/", "Id].tsx");
    RoutePathOfFile(directory, "/[Id].tsx", "/[Id]", "tsx");
  }

  lemma UppercaseSpelling()
    ensures "/" + "[" + "Id]" + "." + "tsx" == "/[Id].tsx"
    ensures "/" + "[" + "Id]" == "/[Id]"
    ensures '.' !in "/[Id]" && NoLineTerminator("/[Id]") && NoLineTerminator("tsx")
    ensures "/" + ("[" + "Id].tsx") == "/[Id].tsx"
    ensures '[' !in "/" && '[' !in "Id].tsx" && "Id].tsx"[0] == 'I' && !IsNameChar('I')
  {
  }

  /** A `[` whose next character is neither a name character nor `]` stays as it is. */
  lemma UnconvertedBracket(a: string, rest: string)
    requires '[' !in a && '[' !in rest
    requires |rest| > 0 && !IsNameChar(rest[0]) && rest[0] != ']'
    ensures ConvertBrackets(a + ("[" + rest)) == a + ("[" + rest)
  {
    ConvertNone(rest);
    assert NameLength(rest) == 0;
    ConvertUnmatchedBracket(rest);
    ConvertPlain(a, "[" + rest);
  }
}
