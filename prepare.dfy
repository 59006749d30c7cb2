/**
 * The asset rewrite pass of the `prepare` command (src/commands/prepare.ts).
 * Starting from the entry pages, every reachable file is handled once: an
 * HTML page has its external imports and scripts replaced by `wcm-link` /
 * `wcm-script` placeholders, its relative imports followed, and its inline
 * script bodies moved into a separate `.js` file; any other file is copied.
 *
 * The source tree is a read-only map and the output tree a `FileSystem`; the
 * shared list of processed paths is a `PathList`. The passes run one after the
 * other in document order, and a failure (a thrown TypeError, a rejected read)
 * ends the current file.
 */
module Prepare {
  import opened Wrappers
  import opened Strings
  import opened Paths
  import opened Markup
  import opened Files

  // ---------------------------------------------------------------------
  // Attribute and URL helpers.

  /** JavaScript's string conversion of an attribute that may be undefined. */
  function Str(a: Option<string>): string {
    match a
    case None => "undefined"
    case Some(s) => s
  }

  /** A character of the class `[^./]`. */
  predicate NameChar(c: char) {
    c != '.' && c != '/'
  }

  /** The end of the run of name characters that starts at `i`. */
  function RunEnd(s: string, i: nat): (r: nat)
    requires i <= |s|
    ensures i <= r <= |s|
    ensures forall k :: i <= k < r ==> NameChar(s[k])
    ensures r == |s| || !NameChar(s[r])
    decreases |s| - i
  {
    if i < |s| && NameChar(s[i]) then RunEnd(s, i + 1) else i
  }

  /** The first name character at or after `from`. */
  function FirstNameChar(s: string, from: nat): (r: Option<nat>)
    requires from <= |s|
    ensures r.Some? ==> from <= r.value < |s| && NameChar(s[r.value])
    ensures r.Some? ==> forall k :: from <= k < r.value ==> !NameChar(s[k])
    ensures r.None? ==> forall k :: from <= k < |s| ==> !NameChar(s[k])
    decreases |s| - from
  {
    if from == |s| then None
    else if NameChar(s[from]) then Some(from)
    else FirstNameChar(s, from + 1)
  }

  /** `r` is a maximal run of name characters of `s` starting at `i`. */
  predicate RunAt(s: string, i: nat, r: string) {
    && r != []
    && i + |r| <= |s|
    && s[i..i + |r|] == r
    && (forall k :: 0 <= k < |r| ==> NameChar(r[k]))
    && (i + |r| == |s| || !NameChar(s[i + |r|]))
  }

  /** `r` is the leftmost maximal run of name characters of `s`. */
  ghost predicate FirstRun(s: string, r: string) {
    exists i :: RunAt(s, i, r) && forall k :: 0 <= k < i ==> !NameChar(s[k])
  }

  /**
   * `getDependencyName(url)`: the match of `[^./]+`, the first maximal run of
   * characters other than `.` and `/`. None stands for the TypeError thrown
   * when the URL has no such character.
   */
  function GetDependencyName(url: string): (r: Option<string>)
    ensures r.None? <==> forall k :: 0 <= k < |url| ==> !NameChar(url[k])
    ensures r.Some? ==> FirstRun(url, r.value)
  {
    match FirstNameChar(url, 0)
    case None => None
    case Some(i) =>
      var e := RunEnd(url, i);
      assert RunAt(url, i, url[i..e]);
      Some(url[i..e])
  }

  /** A character the regular-expression `.` does not match. */
  predicate LineTerminator(c: char) {
    c == '\n' || c == '\r' || c == '\U{2028}' || c == '\U{2029}'
  }

  /** The end of the line that contains index `i`. */
  function LineEnd(s: string, i: nat): (r: nat)
    requires i <= |s|
    ensures i <= r <= |s|
    ensures forall k :: i <= k < r ==> !LineTerminator(s[k])
    ensures r == |s| || LineTerminator(s[r])
    decreases |s| - i
  {
    if i < |s| && !LineTerminator(s[i]) then LineEnd(s, i + 1) else i
  }

  /**
   * `[^./]+\/` matches at `i`: the run of name characters from `i` is
   * followed by `/` (backtracking to a shorter run cannot help, since the
   * character after it is a name character).
   */
  predicate LookupAt(s: string, i: nat) {
    i < |s| && NameChar(s[i]) && RunEnd(s, i) < |s| && s[RunEnd(s, i)] == '/'
  }

  /** The leftmost index at or after `from` where the lookup pattern matches. */
  function LookupStart(s: string, from: nat): (r: Option<nat>)
    requires from <= |s|
    ensures r.Some? ==> from <= r.value && LookupAt(s, r.value)
    ensures r.Some? ==> forall k :: from <= k < r.value ==> !LookupAt(s, k)
    ensures r.None? ==> forall k :: from <= k <= |s| ==> !LookupAt(s, k)
    decreases |s| - from
  {
    if from == |s| then None
    else if LookupAt(s, from) then Some(from)
    else LookupStart(s, from + 1)
  }

  /** The capture of `(.*)` after a lookup match at `i`: the rest of that line. */
  function LookupRest(s: string, i: nat): string
    requires LookupAt(s, i)
  {
    var e := RunEnd(s, i) + 1;
    s[e..LineEnd(s, e)]
  }

  /** `rest` is the capture of the leftmost lookup match of `s`. */
  ghost predicate FirstLookup(s: string, rest: string) {
    exists i: nat :: LookupAt(s, i) && (forall k :: 0 <= k < i ==> !LookupAt(s, k)) && rest == LookupRest(s, i)
  }

  /**
   * `getDependencyLookup(url)`: group 1 of `[^./]+\/(.*)`, the text after the
   * first `/` that ends a run of name characters, up to the end of its line.
   * None stands for undefined, what the caught TypeError leaves when nothing
   * matches.
   */
  function GetDependencyLookup(url: string): (r: Option<string>)
    ensures r.None? <==> forall k :: 0 <= k < |url| ==> !LookupAt(url, k)
    ensures r.Some? ==> FirstLookup(url, r.value)
  {
    match LookupStart(url, 0)
    case None => None
    case Some(i) => Some(LookupRest(url, i))
  }

  /**
   * A bare specifier `name/rest` splits at its first slash: `for` gets the
   * package name and `path` the lookup below it.
   */
  lemma SpecifierSplits(name: string, rest: string)
    requires name != [] && forall k :: 0 <= k < |name| ==> NameChar(name[k])
    requires forall k :: 0 <= k < |rest| ==> !LineTerminator(rest[k])
    ensures GetDependencyName(name + "/" + rest) == Some(name)
    ensures GetDependencyLookup(name + "/" + rest) == Some(rest)
  {
    var url := name + "/" + rest;
    assert url[|name|] == '/';
    assert forall k :: 0 <= k < |name| ==> url[k] == name[k];
    var e := RunEnd(url, 0);
    assert e == |name|;
    assert url[..e] == name;
    assert FirstNameChar(url, 0) == Some(0);
    assert LookupAt(url, 0);
    assert LookupStart(url, 0) == Some(0);
    var l := LineEnd(url, e + 1);
    assert forall k :: e + 1 <= k < |url| ==> url[k] == rest[k - e - 1];
    assert l == |url|;
    assert url[e + 1..] == rest;
    assert LookupRest(url, 0) == url[e + 1..l];
    assert LookupRest(url, 0) == rest;
    assert GetDependencyLookup(url) == Some(rest);
  }

  /** The worked example of a package import. */
  lemma PackageImportExample(url: string)
    requires url == "paper-button/paper-button.html"
    ensures GetDependencyName(url) == Some("paper-button")
    ensures GetDependencyLookup(url) == Some("paper-button.html")
  {
    var n, r := "paper-button", "paper-button.html";
    assert forall k :: 0 <= k < |n| ==> NameChar(n[k]);
    assert forall k :: 0 <= k < |r| ==> !LineTerminator(r[k]);
    assert url == n + "/" + r;
    SpecifierSplits(n, r);
  }

  /** An undefined attribute is read as the text `undefined`: one name, no lookup. */
  lemma UndefinedAttribute()
    ensures GetDependencyName(Str(None)) == Some("undefined")
    ensures GetDependencyLookup(Str(None)) == None
  {
    var u := Str(None);
    assert forall k :: 0 <= k < |u| ==> NameChar(u[k]);
    assert RunEnd(u, 0) == |u|;
    assert u[0..|u|] == u;
    assert FirstNameChar(u, 0) == Some(0);
    assert forall k :: 0 <= k < |u| ==> RunEnd(u, k) == |u|;
  }

  /** `isHttp(src)`: the test of `/http(s)?:\/\//`. */
  predicate IsHttp(src: string) {
    Contains(src, "http://") || Contains(src, "https://")
  }

  /** The pattern `http(s)?://` occurs somewhere in `src`. */
  predicate HttpAt(src: string, i: nat) {
    OccursAt(src, "http", i) && (OccursAt(src, "://", i + 4) || OccursAt(src, "s://", i + 4))
  }

  lemma IsHttpMeaning(src: string)
    ensures IsHttp(src) <==> exists i :: 0 <= i <= |src| && HttpAt(src, i)
  {
    ContainsIff(src, "http://");
    ContainsIff(src, "https://");
    forall i | 0 <= i <= |src|
      ensures HttpAt(src, i) <==> OccursAt(src, "http://", i) || OccursAt(src, "https://", i)
    {
      if OccursAt(src, "http://", i) {
        assert src[i..i + 4] == src[i..i + 7][..4];
        assert src[i + 4..i + 7] == src[i..i + 7][4..];
      }
      if OccursAt(src, "https://", i) {
        assert src[i..i + 4] == src[i..i + 8][..4];
        assert src[i + 4..i + 8] == src[i..i + 8][4..];
      }
      if OccursAt(src, "http", i) && OccursAt(src, "://", i + 4) {
        assert src[i..i + 7] == src[i..i + 4] + src[i + 4..i + 7];
      }
      if OccursAt(src, "http", i) && OccursAt(src, "s://", i + 4) {
        assert src[i..i + 8] == src[i..i + 4] + src[i + 4..i + 8];
      }
    }
  }

  /**
   * `isRelative(sourcePath, relA, relB)`: `relB`, resolved against the
   * directory of `relA` below `sourcePath`, still contains `sourcePath/`. An
   * undefined `relB` makes `path.resolve` throw; the error is caught and the
   * undefined result counts as false.
   */
  predicate IsRelative(sourcePath: string, relA: string, relB: Option<string>)
    ensures IsRelative(sourcePath, relA, relB) ==> relB.Some?
  {
    relB.Some? && Contains(Resolve(Dirname(Join(sourcePath, relA)), relB.value), sourcePath + [Sep])
  }

  /**
   * A page of plain segments below an absolute source directory of plain
   * segments, importing an href of plain segments, imports a page below that
   * directory: the href counts as relative.
   */
  lemma IsRelativeBelow(root: seq<string>, dir: seq<string>, name: string, hs: seq<string>)
    requires root != [] && hs != []
    requires PlainSegments(root) && PlainSegments(dir) && PlainSegments(hs) && Plain(name) && Sep !in name
    ensures var sourceDir, filePath, href := [Sep] + JoinWith(root, [Sep]), JoinWith(dir + [name], [Sep]), JoinWith(hs, [Sep]);
      && Resolve(Dirname(Join(sourceDir, filePath)), href) == [Sep] + JoinWith(root + dir + hs, [Sep])
      && IsRelative(sourceDir, filePath, Some(href))
  {
    ResolvesBelow(root, dir, name, hs);
    ContainsRoot(root, dir, hs);
  }

  /** The href of plain segments resolves below the page's directory. */
  lemma ResolvesBelow(root: seq<string>, dir: seq<string>, name: string, hs: seq<string>)
    requires root != [] && hs != []
    requires PlainSegments(root) && PlainSegments(dir) && PlainSegments(hs) && Plain(name) && Sep !in name
    ensures Resolve(Dirname(Join([Sep] + JoinWith(root, [Sep]), JoinWith(dir + [name], [Sep]))), JoinWith(hs, [Sep]))
      == [Sep] + JoinWith(root + dir + hs, [Sep])
  {
    PageDirectory(root, dir, name);
    JoinAbsolute(root + dir, hs);
  }

  /** `/root/dir/hs` contains `/root/`. */
  lemma ContainsRoot(root: seq<string>, dir: seq<string>, hs: seq<string>)
    requires root != [] && hs != []
    ensures Contains([Sep] + JoinWith(root + dir + hs, [Sep]), [Sep] + JoinWith(root, [Sep]) + [Sep])
  {
    var r, t := [Sep] + JoinWith(root + dir + hs, [Sep]), [Sep] + JoinWith(root, [Sep]) + [Sep];
    BelowRoot(root, dir + hs);
    assert root + (dir + hs) == root + dir + hs;
    assert OccursAt(r, t, 0);
    ContainsIff(r, t);
  }

  /** The directory of a page of plain segments below `/root`. */
  lemma PageDirectory(root: seq<string>, dir: seq<string>, name: string)
    requires root != [] && PlainSegments(root) && PlainSegments(dir) && Plain(name) && Sep !in name
    ensures Dirname(Join([Sep] + JoinWith(root, [Sep]), JoinWith(dir + [name], [Sep]))) == [Sep] + JoinWith(root + dir, [Sep])
  {
    assert PlainSegments(dir + [name]);
    JoinAbsolute(root, dir + [name]);
    assert root + (dir + [name]) == (root + dir) + [name];
    DirnameAbsolute(root + dir, name);
  }

  /** `/root/rest` starts with `/root/`. */
  lemma BelowRoot(root: seq<string>, rest: seq<string>)
    requires root != [] && rest != []
    ensures OccursAt([Sep] + JoinWith(root + rest, [Sep]), [Sep] + JoinWith(root, [Sep]) + [Sep], 0)
  {
    JoinWithAppend(root, rest, [Sep]);
    var t := [Sep] + JoinWith(root, [Sep]) + [Sep];
    var r := [Sep] + JoinWith(root + rest, [Sep]);
    assert r == t + JoinWith(rest, [Sep]);
    assert r[..|t|] == t;
  }

  /** An undefined href is never relative: `path.resolve` throws and the result is undefined. */
  lemma UndefinedNotRelative(sourceDir: string, filePath: string)
    ensures !IsRelative(sourceDir, filePath, None)
  {
  }

  /** An href that climbs out of the source directory: `../y.html` from `/a/x.html` is not relative. */
  lemma LeavingNotRelative(sourceDir: string, filePath: string, href: string)
    requires sourceDir == "/a" && filePath == "x.html" && href == "../y.html"
    ensures Resolve(Dirname(Join(sourceDir, filePath)), href) == "/y.html"
    ensures !IsRelative(sourceDir, filePath, Some(href))
  {
    var r := ResolveFromA(sourceDir, filePath, href, ["y.html"]);
    assert forall j :: 0 <= j < |r| ==> r[j] != 'a';
    forall j | 0 <= j <= |r| ensures !OccursAt(r, sourceDir + [Sep], j) {
      if j + 3 <= |r| {
        assert r[j..j + 3][1] == r[j + 1];
      }
    }
  }

  /**
   * `includes` looks for `sourceDir/` anywhere, so an href that leaves the
   * source directory through one named like it still counts as relative:
   * `../b/a/c.html` from `/a/x.html` resolves to `/b/a/c.html`.
   */
  lemma SubstringRelative(sourceDir: string, filePath: string, href: string)
    requires sourceDir == "/a" && filePath == "x.html" && href == "../b/a/c.html"
    ensures Resolve(Dirname(Join(sourceDir, filePath)), href) == "/b/a/c.html"
    ensures !Under("/b/a/c.html", sourceDir)
    ensures IsRelative(sourceDir, filePath, Some(href))
  {
    var r := SubstringResolved(sourceDir, filePath, href);
    assert r[2..5] == sourceDir + [Sep];
    assert OccursAt(r, sourceDir + [Sep], 2);
    assert r[..2][1] == 'b' && sourceDir[1] == 'a';
  }

  lemma SubstringResolved(sourceDir: string, filePath: string, href: string) returns (r: string)
    requires sourceDir == "/a" && filePath == "x.html" && href == "../b/a/c.html"
    ensures r == "/b/a/c.html" && Resolve(Dirname(Join(sourceDir, filePath)), href) == r
  {
    r := ResolveFromA(sourceDir, filePath, href, ["b", "a", "c.html"]);
  }

  /** `../ys` resolved from the directory of `/a/x.html`. */
  lemma ResolveFromA(sourceDir: string, filePath: string, href: string, ys: seq<string>) returns (r: string)
    requires sourceDir == "/a" && filePath == "x.html"
    requires ys != [] && PlainSegments(ys) && href == ".." + [Sep] + JoinWith(ys, [Sep])
    ensures r == [Sep] + JoinWith(ys, [Sep])
    ensures Resolve(Dirname(Join(sourceDir, filePath)), href) == r
  {
    assert sourceDir == [Sep] + JoinWith(["a"], [Sep]);
    assert filePath == JoinWith([] + [filePath], [Sep]);
    assert PlainSegments(["a"]);
    PageDirectory(["a"], [], filePath);
    assert ["a"] + [] == ["a"];
    assert !IsAbsolute(href);
    var pieces := [] + ["a", ".."] + ys;
    assert pieces == ["a"] + ([".."] + ys);
    JoinWithAppend(["a"], [".."] + ys, [Sep]);
    JoinWithAppend([".."], ys, [Sep]);
    assert sourceDir + [Sep] + href == [Sep] + JoinWith(pieces, [Sep]);
    assert [] + ["a"] == ["a"];
    ClimbOne([], "a", ys);
    r := [Sep] + JoinWith([] + ys, [Sep]);
    assert [] + ys == ys;
  }

  /** A configuration value that is one item or an array of them. */
  datatype OneOrMany<T> = One(item: T) | Many(items: seq<T>)

  /** `ensureArray(val)`. */
  function EnsureArray<T>(v: OneOrMany<T>): (r: seq<T>)
    ensures v.Many? ==> r == v.items
    ensures v.One? ==> r == [v.item]
  {
    match v
    case One(x) => [x]
    case Many(xs) => xs
  }

  // ---------------------------------------------------------------------
  // The link pass.

  /** An import the link pass replaces: matched by the selector and not relative. */
  predicate External(sourceDir: string, filePath: string, e: Element) {
    e.IsImport() && !IsRelative(sourceDir, filePath, e.href)
  }

  /**
   * `processLinkElem` on an import that is not relative: what takes its place.
   * An undefined lookup makes `.attr("path", undefined)` read the attribute
   * instead of setting it, so `replaceWith` receives undefined and the import
   * is removed. None stands for the TypeError of `getDependencyName`.
   */
  function LinkPlaceholder(link: Element): (r: Option<seq<Element>>)
    requires link.Link?
    ensures r.None? <==> forall k :: 0 <= k < |Str(link.href)| ==> !NameChar(Str(link.href)[k])
    ensures r.Some? ==> (r.value == [] <==> forall k :: 0 <= k < |Str(link.href)| ==> !LookupAt(Str(link.href), k))
    ensures r.Some? && r.value != [] ==>
      && |r.value| == 1 && r.value[0].WcmLink? && r.value[0].linkRel == link.rel
      && FirstRun(Str(link.href), r.value[0].linkFor) && FirstLookup(Str(link.href), r.value[0].linkPath)
  {
    match GetDependencyName(Str(link.href))
    case None => None
    case Some(name) =>
      match GetDependencyLookup(Str(link.href))
      case None => Some([])
      case Some(path) => Some([WcmLink(link.rel, name, path)])
  }

  /** An external import whose `href` has a name but no lookup: the link pass removes it. */
  predicate LinkDropped(sourceDir: string, filePath: string, e: Element) {
    External(sourceDir, filePath, e) && GetDependencyName(Str(e.href)).Some? && GetDependencyLookup(Str(e.href)).None?
  }

  /**
   * What the link pass leaves in place of `e`, in the page at `filePath`:
   * at most one element, never an external import, and `e` itself unless it
   * is one.
   */
  function LinkStep(sourceDir: string, filePath: string, e: Element): (r: Option<seq<Element>>)
    ensures r.None? <==> External(sourceDir, filePath, e) && GetDependencyName(Str(e.href)).None?
    ensures !External(sourceDir, filePath, e) ==> r == Some([e])
    ensures r.Some? ==> |r.value| <= 1
  {
    if External(sourceDir, filePath, e) then LinkPlaceholder(e) else Some([e])
  }

  /**
   * A link step removes exactly the imports without a lookup, and what it
   * leaves is no external import and holds the same inline body.
   */
  lemma LinkStepShape(sourceDir: string, filePath: string, e: Element)
    requires LinkStep(sourceDir, filePath, e).Some?
    ensures var q := LinkStep(sourceDir, filePath, e).value;
      && |q| + (if LinkDropped(sourceDir, filePath, e) then 1 else 0) == 1
      && forall k :: 0 <= k < |q| ==> !External(sourceDir, filePath, q[k]) && BodyOf(q[k]) == BodyOf(e)
  {
  }

  /**
   * The elements after the link pass, element by element in document order.
   * None when some external import has no name character in its `href`.
   */
  function RewriteLinks(sourceDir: string, filePath: string, es: seq<Element>): Option<seq<Element>>
    decreases |es|
  {
    if es == [] then Some([])
    else
      match RewriteLinks(sourceDir, filePath, es[..|es| - 1])
      case None => None
      case Some(p) =>
        match LinkStep(sourceDir, filePath, es[|es| - 1])
        case None => None
        case Some(q) => Some(p + q)
  }

  /** The number of imports the link pass removes. */
  function DroppedLinks(sourceDir: string, filePath: string, es: seq<Element>): nat
    decreases |es|
  {
    if es == [] then 0
    else DroppedLinks(sourceDir, filePath, es[..|es| - 1]) + (if LinkDropped(sourceDir, filePath, es[|es| - 1]) then 1 else 0)
  }

  /** `e` is no external import, or one whose `href` holds a name character. */
  predicate Named(sourceDir: string, filePath: string, e: Element) {
    External(sourceDir, filePath, e) ==> GetDependencyName(Str(e.href)).Some?
  }

  /** The link pass succeeds exactly when every external import has a name character. */
  lemma {:induction false} LinksOk(sourceDir: string, filePath: string, es: seq<Element>)
    ensures RewriteLinks(sourceDir, filePath, es).Some? <==> forall k :: 0 <= k < |es| ==> Named(sourceDir, filePath, es[k])
    decreases |es|
  {
    if es != [] {
      var init, e := es[..|es| - 1], es[|es| - 1];
      LinksOk(sourceDir, filePath, init);
      assert RewriteLinks(sourceDir, filePath, es).Some? <==>
        RewriteLinks(sourceDir, filePath, init).Some? && LinkStep(sourceDir, filePath, e).Some?;
      assert LinkStep(sourceDir, filePath, e).Some? <==> Named(sourceDir, filePath, e);
      assert es == init + [e];
      assert (forall k :: 0 <= k < |es| ==> Named(sourceDir, filePath, es[k])) <==>
        (forall k :: 0 <= k < |init| ==> Named(sourceDir, filePath, init[k])) && Named(sourceDir, filePath, e);
    }
  }

  /** The link pass over two halves is the concatenation of the passes over each. */
  lemma {:induction false} LinksAppend(sourceDir: string, filePath: string, a: seq<Element>, b: seq<Element>)
    requires RewriteLinks(sourceDir, filePath, a).Some? && RewriteLinks(sourceDir, filePath, b).Some?
    ensures RewriteLinks(sourceDir, filePath, a + b) ==
      Some(RewriteLinks(sourceDir, filePath, a).value + RewriteLinks(sourceDir, filePath, b).value)
    decreases |b|
  {
    if b == [] {
      assert a + b == a;
      assert RewriteLinks(sourceDir, filePath, a).value + [] == RewriteLinks(sourceDir, filePath, a).value;
    } else {
      var init := b[..|b| - 1];
      assert (a + b)[..|a + b| - 1] == a + init && (a + b)[|a + b| - 1] == b[|b| - 1];
      LinksAppend(sourceDir, filePath, a, init);
      var x, y := RewriteLinks(sourceDir, filePath, a).value, RewriteLinks(sourceDir, filePath, init).value;
      var q := LinkStep(sourceDir, filePath, b[|b| - 1]).value;
      AppendAssoc(x, y, q);
    }
  }

  lemma AppendAssoc<T>(a: seq<T>, b: seq<T>, c: seq<T>)
    ensures (a + b) + c == a + (b + c)
  {
  }

  /**
   * A successful link pass removes exactly the external imports without a
   * lookup, leaves no external import behind, and keeps the inline bodies and
   * the scripts the script pass will remove.
   */
  lemma {:induction false} LinksKeep(sourceDir: string, filePath: string, es: seq<Element>)
    requires RewriteLinks(sourceDir, filePath, es).Some?
    ensures var linked := RewriteLinks(sourceDir, filePath, es).value;
      && |linked| + DroppedLinks(sourceDir, filePath, es) == |es|
      && (forall k :: 0 <= k < |linked| ==> !External(sourceDir, filePath, linked[k]))
      && InlineBodies(linked) == InlineBodies(es)
      && VanishedScripts(sourceDir, filePath, linked) == VanishedScripts(sourceDir, filePath, es)
    decreases |es|
  {
    if es != [] {
      var init, e := es[..|es| - 1], es[|es| - 1];
      LinksKeep(sourceDir, filePath, init);
      var p := RewriteLinks(sourceDir, filePath, init).value;
      var q := LinkStep(sourceDir, filePath, e).value;
      LinkStepShape(sourceDir, filePath, e);
      assert RewriteLinks(sourceDir, filePath, es).value == p + q;
      NoExternalAppend(sourceDir, filePath, p, q);
      BodiesAppend(p, q);
      VanishedAppend(sourceDir, filePath, p, q);
      StepKeepsScripts(sourceDir, filePath, e, q);
    }
  }

  /** Two runs without external imports join into one. */
  lemma NoExternalAppend(sourceDir: string, filePath: string, p: seq<Element>, q: seq<Element>)
    requires forall k :: 0 <= k < |p| ==> !External(sourceDir, filePath, p[k])
    requires forall k :: 0 <= k < |q| ==> !External(sourceDir, filePath, q[k])
    ensures forall k :: 0 <= k < |p + q| ==> !External(sourceDir, filePath, (p + q)[k])
  {
    forall k | 0 <= k < |p + q| ensures !External(sourceDir, filePath, (p + q)[k]) {
      if k >= |p| {
        assert (p + q)[k] == q[k - |p|];
      }
    }
  }

  /** What one link step leaves holds the bodies and the vanishing scripts of the element it replaces. */
  lemma StepKeepsScripts(sourceDir: string, filePath: string, e: Element, q: seq<Element>)
    requires LinkStep(sourceDir, filePath, e) == Some(q)
    ensures InlineBodies(q) == BodyOf(e)
    ensures VanishedScripts(sourceDir, filePath, q) == (if ScriptVanishes(sourceDir, filePath, e) then 1 else 0)
  {
    if q != [] {
      assert q == [q[0]] && [q[0]][..0] == [];
      if !External(sourceDir, filePath, e) {
        assert q[0] == e;
      } else {
        assert q[0].WcmLink?;
      }
    }
  }

  /** An import without `href` is removed: `undefined` has a name but no lookup. */
  lemma MissingHref(sourceDir: string, filePath: string, a: seq<Element>, x: Element, b: seq<Element>)
    requires x == Link("import", None, false)
    requires RewriteLinks(sourceDir, filePath, a).Some? && RewriteLinks(sourceDir, filePath, b).Some?
    ensures RewriteLinks(sourceDir, filePath, a + [x] + b) ==
      Some(RewriteLinks(sourceDir, filePath, a).value + RewriteLinks(sourceDir, filePath, b).value)
  {
    UndefinedAttribute();
    assert LinkStep(sourceDir, filePath, x) == Some([]);
    RemovedAlone(sourceDir, filePath, x);
    LinksAppend(sourceDir, filePath, a, [x]);
    assert RewriteLinks(sourceDir, filePath, a).value + [] == RewriteLinks(sourceDir, filePath, a).value;
    LinksAppend(sourceDir, filePath, a + [x], b);
  }

  lemma RemovedAlone(sourceDir: string, filePath: string, x: Element)
    requires LinkStep(sourceDir, filePath, x) == Some([])
    ensures RewriteLinks(sourceDir, filePath, [x]) == Some([])
  {
    var none: seq<Element> := [];
    assert [x][..0] == none && [x][0] == x;
    assert RewriteLinks(sourceDir, filePath, none) == Some(none);
    assert none + none == none;
  }

  // ---------------------------------------------------------------------
  // The script pass.

  /** The elements kept in order and the inline bodies collected in order. */
  datatype ScriptPass = ScriptPass(elements: seq<Element>, bodies: seq<string>)

  /** The inline body `e` holds, if it is a script the selector reaches. */
  function BodyOf(e: Element): seq<string> {
    if e.IsScript() && e.body.Some? then [e.body.value] else []
  }

  /** A script with a body is what the pass removes. */
  predicate Inline(e: Element) {
    e.IsScript() && e.body.Some?
  }

  /**
   * A script without body, without an http(s) source and not relative, whose
   * source has a name but no lookup: as for imports, the undefined lookup
   * makes `replaceWith` remove it. An empty `<script></script>` is one.
   */
  predicate ScriptVanishes(sourceDir: string, filePath: string, e: Element) {
    && e.IsScript() && e.body.None? && !IsHttp(Str(e.src)) && !IsRelative(sourceDir, filePath, e.src)
    && GetDependencyName(Str(e.src)).Some? && GetDependencyLookup(Str(e.src)).None?
  }

  /**
   * `processScriptElem` on one element: an inline script is removed and its
   * body collected; a script without an http(s) source becomes a `wcm-script`,
   * or disappears when its lookup is undefined; anything else stays. None
   * stands for the TypeError of `getDependencyName`.
   */
  function ScriptStep(sourceDir: string, filePath: string, e: Element): (r: Option<ScriptPass>)
    ensures r.None? <==>
      e.IsScript() && e.body.None? && !IsHttp(Str(e.src)) && !IsRelative(sourceDir, filePath, e.src)
      && GetDependencyName(Str(e.src)).None?
    ensures r.Some? ==> r.value.bodies == BodyOf(e) && |r.value.elements| <= 1
    ensures r.Some? && r.value.elements != [] && e.IsScript() ==>
      r.value.elements[0].WcmScript? || (r.value.elements[0] == e && IsHttp(Str(e.src)))
  {
    if !e.IsScript() then Some(ScriptPass([e], []))
    else if e.body.Some? then Some(ScriptPass([], [e.body.value]))
    else if IsHttp(Str(e.src)) then Some(ScriptPass([e], []))
    else if IsRelative(sourceDir, filePath, e.src) then Some(ScriptPass([WcmScript(None, e.src.value)], []))
    else
      match GetDependencyName(Str(e.src))
      case None => None
      case Some(name) =>
        match GetDependencyLookup(Str(e.src))
        case None => Some(ScriptPass([], []))
        case Some(path) => Some(ScriptPass([WcmScript(Some(name), path)], []))
  }

  /**
   * A script step drops one element per inline body and per script without a
   * lookup, and keeps no inline script.
   */
  lemma ScriptStepShape(sourceDir: string, filePath: string, e: Element)
    requires ScriptStep(sourceDir, filePath, e).Some?
    ensures var q := ScriptStep(sourceDir, filePath, e).value;
      && |q.elements| + |BodyOf(e)| + (if ScriptVanishes(sourceDir, filePath, e) then 1 else 0) == 1
      && forall k :: 0 <= k < |q.elements| ==> !Inline(q.elements[k])
  {
  }

  /** An empty `<script></script>` is removed and contributes no body. */
  lemma EmptyScriptRemoved(sourceDir: string, filePath: string)
    ensures ScriptStep(sourceDir, filePath, Script(None, None, false)) == Some(ScriptPass([], []))
  {
    UndefinedAttribute();
    UndefinedNotHttp();
  }

  lemma UndefinedNotHttp()
    ensures !IsHttp(Str(None))
  {
    var u := Str(None);
    assert forall j :: 0 <= j < |u| ==> u[j] != 'h';
    forall j | 0 <= j <= |u|
      ensures !OccursAt(u, "http://", j) && !OccursAt(u, "https://", j)
    {
      if j + 7 <= |u| {
        assert u[j..j + 7][0] == u[j];
      }
      if j + 8 <= |u| {
        assert u[j..j + 8][0] == u[j];
      }
    }
  }

  /** The script pass over `es`, element by element in document order. */
  function RewriteScripts(sourceDir: string, filePath: string, es: seq<Element>): Option<ScriptPass>
    decreases |es|
  {
    if es == [] then Some(ScriptPass([], []))
    else
      match RewriteScripts(sourceDir, filePath, es[..|es| - 1])
      case None => None
      case Some(p) =>
        match ScriptStep(sourceDir, filePath, es[|es| - 1])
        case None => None
        case Some(q) => Some(ScriptPass(p.elements + q.elements, p.bodies + q.bodies))
  }

  /** The inline script bodies of a page, in document order. */
  function InlineBodies(es: seq<Element>): seq<string>
    decreases |es|
  {
    if es == [] then [] else InlineBodies(es[..|es| - 1]) + BodyOf(es[|es| - 1])
  }

  /** The number of scripts the script pass removes without collecting a body. */
  function VanishedScripts(sourceDir: string, filePath: string, es: seq<Element>): nat
    decreases |es|
  {
    if es == [] then 0
    else VanishedScripts(sourceDir, filePath, es[..|es| - 1]) + (if ScriptVanishes(sourceDir, filePath, es[|es| - 1]) then 1 else 0)
  }

  lemma {:induction false} BodiesAppend(a: seq<Element>, b: seq<Element>)
    ensures InlineBodies(a + b) == InlineBodies(a) + InlineBodies(b)
    decreases |b|
  {
    if b == [] {
      assert a + b == a;
    } else {
      var init := b[..|b| - 1];
      assert (a + b)[..|a + b| - 1] == a + init && (a + b)[|a + b| - 1] == b[|b| - 1];
      BodiesAppend(a, init);
    }
  }

  lemma {:induction false} VanishedAppend(sourceDir: string, filePath: string, a: seq<Element>, b: seq<Element>)
    ensures VanishedScripts(sourceDir, filePath, a + b) == VanishedScripts(sourceDir, filePath, a) + VanishedScripts(sourceDir, filePath, b)
    decreases |b|
  {
    if b == [] {
      assert a + b == a;
    } else {
      var init := b[..|b| - 1];
      assert (a + b)[..|a + b| - 1] == a + init && (a + b)[|a + b| - 1] == b[|b| - 1];
      VanishedAppend(sourceDir, filePath, a, init);
    }
  }

  /** The script pass succeeds exactly when every element's step does. */
  lemma {:induction false} ScriptsOk(sourceDir: string, filePath: string, es: seq<Element>)
    ensures RewriteScripts(sourceDir, filePath, es).Some? <==>
      forall k :: 0 <= k < |es| ==> ScriptStep(sourceDir, filePath, es[k]).Some?
    decreases |es|
  {
    if es != [] {
      var init := es[..|es| - 1];
      ScriptsOk(sourceDir, filePath, init);
      assert forall k :: 0 <= k < |init| ==> init[k] == es[k];
    }
  }

  /**
   * A successful script pass collects exactly the inline bodies, in order,
   * and drops one element per body and one per vanishing script.
   */
  lemma {:induction false} ScriptsBodies(sourceDir: string, filePath: string, es: seq<Element>)
    requires RewriteScripts(sourceDir, filePath, es).Some?
    ensures RewriteScripts(sourceDir, filePath, es).value.bodies == InlineBodies(es)
    ensures |RewriteScripts(sourceDir, filePath, es).value.elements| + |InlineBodies(es)| + VanishedScripts(sourceDir, filePath, es) == |es|
    decreases |es|
  {
    if es != [] {
      var init, e := es[..|es| - 1], es[|es| - 1];
      ScriptsBodies(sourceDir, filePath, init);
      var p := RewriteScripts(sourceDir, filePath, init).value;
      var q := ScriptStep(sourceDir, filePath, e).value;
      ScriptStepShape(sourceDir, filePath, e);
      assert RewriteScripts(sourceDir, filePath, es).value == ScriptPass(p.elements + q.elements, p.bodies + q.bodies);
      assert InlineBodies(es) == InlineBodies(init) + BodyOf(e);
    }
  }

  /** No inline script survives a successful script pass. */
  lemma {:induction false} ScriptsRemoved(sourceDir: string, filePath: string, es: seq<Element>)
    requires RewriteScripts(sourceDir, filePath, es).Some?
    ensures forall k :: 0 <= k < |RewriteScripts(sourceDir, filePath, es).value.elements| ==>
      !Inline(RewriteScripts(sourceDir, filePath, es).value.elements[k])
    decreases |es|
  {
    if es != [] {
      var init := es[..|es| - 1];
      ScriptsRemoved(sourceDir, filePath, init);
      var p := RewriteScripts(sourceDir, filePath, init).value;
      var q := ScriptStep(sourceDir, filePath, es[|es| - 1]).value;
      ScriptStepShape(sourceDir, filePath, es[|es| - 1]);
      var all := p.elements + q.elements;
      forall k | 0 <= k < |all| ensures !Inline(all[k]) {
        if k < |p.elements| {
          assert all[k] == p.elements[k];
        } else {
          assert all[k] == q.elements[k - |p.elements|];
        }
      }
    }
  }

  /** Once a prefix fails, the whole pass fails. */
  lemma {:induction false} ScriptsFailLater(sourceDir: string, filePath: string, es: seq<Element>, j: nat)
    requires j <= |es|
    requires RewriteScripts(sourceDir, filePath, es[..j]).None?
    ensures RewriteScripts(sourceDir, filePath, es).None?
    decreases |es| - j
  {
    if j < |es| {
      assert es[..j + 1][..j] == es[..j];
      ScriptsFailLater(sourceDir, filePath, es, j + 1);
    } else {
      assert es[..j] == es;
    }
  }

  /**
   * `processScriptElem` over all scripts of the page: the method that mutates
   * the document, proved against the function of the pass.
   */
  method ProcessScripts(sourceDir: string, filePath: string, es: seq<Element>) returns (r: Option<ScriptPass>)
    ensures r == RewriteScripts(sourceDir, filePath, es)
  {
    var kept: seq<Element> := [];
    var bodies: seq<string> := [];
    var i := 0;
    while i < |es|
      invariant 0 <= i <= |es|
      invariant RewriteScripts(sourceDir, filePath, es[..i]) == Some(ScriptPass(kept, bodies))
    {
      var e := es[i];
      assert es[..i + 1][..i] == es[..i] && es[..i + 1][i] == e;
      var add: seq<Element>, got: seq<string> := [e], [];
      if e.IsScript() && e.body.Some? {
        add, got := [], [e.body.value];
      } else if e.IsScript() && !IsHttp(Str(e.src)) {
        if IsRelative(sourceDir, filePath, e.src) {
          add := [WcmScript(None, e.src.value)];
        } else {
          var name := GetDependencyName(Str(e.src));
          if name.None? {
            assert ScriptStep(sourceDir, filePath, e).None?;
            ScriptsFailLater(sourceDir, filePath, es, i + 1);
            return None;
          }
          var path := GetDependencyLookup(Str(e.src));
          add := if path.Some? then [WcmScript(Some(name.value), path.value)] else [];
        }
      }
      assert ScriptStep(sourceDir, filePath, e) == Some(ScriptPass(add, got));
      kept, bodies := kept + add, bodies + got;
      i := i + 1;
    }
    assert es[..|es|] == es;
    r := Some(ScriptPass(kept, bodies));
  }

  // ---------------------------------------------------------------------
  // The name of the script file.

  /** `filePath.replace(".html", ".js")`: the first name the loop tries. */
  function ScriptBase(filePath: string): string {
    ReplaceFirst(filePath, ".html", ".js")
  }

  /** The text that replaces `.js` at the `k`-th collision. */
  function Suffix(k: nat): string {
    "_" + NatToString(k) + ".js"
  }

  /** The name tried after `k` collisions: each one applies `replace(".js", "_" + k + ".js")`. */
  function Candidate(filePath: string, k: nat): string {
    if k == 0 then ScriptBase(filePath)
    else ReplaceFirst(Candidate(filePath, k - 1), ".js", Suffix(k))
  }

  /** Every path that exists in `src` is at most this long. */
  ghost function MaxLength(keys: set<string>): (r: nat)
    ensures forall p :: p in keys ==> |p| <= r
    decreases |keys|
  {
    if keys == {} then 0
    else
      var p :| p in keys;
      var m := MaxLength(keys - {p});
      if |p| > m then |p| else m
  }

  lemma ExistsBound(src: map<string, FileData>, p: string)
    requires Exists(src, p)
    ensures |p| <= MaxLength(src.Keys)
  {
    var q :| q in src && Under(q, p);
  }

  /** A page's path ends in `.html`. */
  lemma HtmlSuffix(p: string)
    requires Extname(p) == ".html"
    ensures IndexOf(p, ".html").Some?
  {
    var base := Basename(p);
    assert base == p[|p| - |base|..] by {
      match LastIndexOfChar(p, Sep)
      case None =>
      case Some(i) =>
    }
    var i := LastIndexOfChar(base, '.').value;
    assert base[i..] == ".html";
    assert p[|p| - 5..] == base[i..];
    assert OccursAt(p, ".html", |p| - 5);
  }

  /** A normalised relative name holding `.js`: the shape every candidate has. */
  predicate Shaped(c: string) {
    NormalRel(c) && IndexOf(c, ".js").Some?
  }

  /** A middle that can stand for `.html` or `.js` inside one plain segment. */
  predicate Middle(m: string) {
    Sep !in m && HasNonDot(m)
  }

  lemma LiteralMiddles()
    ensures Middle(".html") && Middle(".js")
  {
    assert ".html"[1] != '.' && ".js"[1] != '.';
  }

  /** Every collision suffix is a middle that ends in `.js`. */
  lemma SuffixShape(k: nat)
    ensures Middle(Suffix(k)) && |Suffix(k)| > 3
    ensures var m := Suffix(k); m[|m| - 3] == '.' && m[|m| - 2] == 'j' && m[|m| - 1] == 's'
  {
    var m := Suffix(k);
    assert m[0] != '.';
    forall j | 0 <= j < |m| ensures m[j] != Sep {
      if 1 <= j <= |NatToString(k)| {
        assert m[j] == NatToString(k)[j - 1];
      }
    }
  }

  /** The first `t` of `c` split out. */
  lemma FirstOccurrence(c: string, t: string) returns (a: string, b: string)
    requires IndexOf(c, t).Some?
    ensures c == a + t + b && ReplaceFirst(c, t, "") == a + b
    ensures forall m :: ReplaceFirst(c, t, m) == a + m + b
  {
    var i := IndexOf(c, t).value;
    a, b := c[..i], c[i + |t|..];
    assert c[i..i + |t|] == t;
    assert c == a + c[i..i + |t|] + b;
  }

  /** Replacing the first `t` by a middle `m` ending in `.js` gives a shaped name. */
  lemma ReplaceShape(c: string, t: string, m: string)
    requires NormalRel(c) && IndexOf(c, t).Some? && Middle(t)
    requires Middle(m) && |m| >= 3
    requires m[|m| - 3] == '.' && m[|m| - 2] == 'j' && m[|m| - 1] == 's'
    ensures Shaped(ReplaceFirst(c, t, m))
  {
    var a, b := FirstOccurrence(c, t);
    ReplaceKeepsNormal(a, t, m, b);
    EndsInJs(a, m, b);
  }

  /** A middle ending in `.js` puts a `.js` into the name. */
  lemma EndsInJs(a: string, m: string, b: string)
    requires |m| >= 3 && m[|m| - 3] == '.' && m[|m| - 2] == 'j' && m[|m| - 1] == 's'
    ensures IndexOf(a + m + b, ".js").Some?
  {
    var n, j := a + m + b, |a| + |m| - 3;
    assert n[j] == '.' && n[j + 1] == 'j' && n[j + 2] == 's';
    assert n[j..j + 3] == ".js";
    assert OccursAt(n, ".js", j);
    ContainsIff(n, ".js");
  }

  /** The first name tried is shaped. */
  lemma BaseShape(filePath: string)
    requires NormalRel(filePath) && Extname(filePath) == ".html"
    ensures Shaped(ScriptBase(filePath))
  {
    HtmlSuffix(filePath);
    LiteralMiddles();
    ReplaceShape(filePath, ".html", ".js");
  }

  /** Every candidate is shaped. */
  lemma {:induction false} CandidateShape(filePath: string, k: nat)
    requires NormalRel(filePath) && Extname(filePath) == ".html"
    ensures Shaped(Candidate(filePath, k))
  {
    if k == 0 {
      BaseShape(filePath);
    } else {
      CandidateShape(filePath, k - 1);
      SuffixStep(Candidate(filePath, k - 1), k);
    }
  }

  /** Suffixing a shaped name keeps it shaped. */
  lemma SuffixStep(c: string, k: nat)
    requires Shaped(c)
    ensures Shaped(ReplaceFirst(c, ".js", Suffix(k)))
  {
    SuffixShape(k);
    LiteralMiddles();
    ReplaceShape(c, ".js", Suffix(k));
  }

  /** Replacing the first `.js` of a shaped name by a longer middle lengthens its join. */
  lemma ReplaceLengthens(base: string, c: string, m: string)
    requires Shaped(c) && Middle(m) && |m| > 3
    ensures |Join(base, ReplaceFirst(c, ".js", m))| > |Join(base, c)|
  {
    var a, b := FirstOccurrence(c, ".js");
    LiteralMiddles();
    ReplaceInSegment(base, a, ".js", m, b);
  }

  /** Each collision makes the joined name longer. */
  lemma CandidateGrows(sourceDir: string, filePath: string, k: nat)
    requires NormalRel(filePath) && Extname(filePath) == ".html"
    ensures |Join(sourceDir, Candidate(filePath, k + 1))| > |Join(sourceDir, Candidate(filePath, k))|
  {
    CandidateShape(filePath, k);
    SuffixShape(k + 1);
    ReplaceLengthens(sourceDir, Candidate(filePath, k), Suffix(k + 1));
  }

  /** The first candidate from the `k`-th on that does not exist in the source directory. */
  function FreeFrom(src: map<string, FileData>, sourceDir: string, filePath: string, k: nat): string
    requires NormalRel(filePath) && Extname(filePath) == ".html"
    decreases MaxLength(src.Keys) + 1 - |Join(sourceDir, Candidate(filePath, k))|
  {
    if Exists(src, Join(sourceDir, Candidate(filePath, k))) then
      CandidateGrows(sourceDir, filePath, k);
      ExistsBound(src, Join(sourceDir, Candidate(filePath, k)));
      FreeFrom(src, sourceDir, filePath, k + 1)
    else
      Candidate(filePath, k)
  }

  /** Candidate `n` is the first from `k` on that is free. */
  predicate FirstFree(src: map<string, FileData>, sourceDir: string, filePath: string, k: nat, n: nat) {
    && k <= n
    && !Exists(src, Join(sourceDir, Candidate(filePath, n)))
    && forall j :: k <= j < n ==> Exists(src, Join(sourceDir, Candidate(filePath, j)))
  }

  /** The loop stops at the first candidate that does not exist in the source directory. */
  lemma {:induction false} FreeFromIsFirst(src: map<string, FileData>, sourceDir: string, filePath: string, k: nat)
    requires NormalRel(filePath) && Extname(filePath) == ".html"
    ensures exists n :: FirstFree(src, sourceDir, filePath, k, n) && FreeFrom(src, sourceDir, filePath, k) == Candidate(filePath, n)
    decreases MaxLength(src.Keys) + 1 - |Join(sourceDir, Candidate(filePath, k))|
  {
    if Exists(src, Join(sourceDir, Candidate(filePath, k))) {
      CandidateGrows(sourceDir, filePath, k);
      ExistsBound(src, Join(sourceDir, Candidate(filePath, k)));
      FreeFromIsFirst(src, sourceDir, filePath, k + 1);
      var n :| FirstFree(src, sourceDir, filePath, k + 1, n) && FreeFrom(src, sourceDir, filePath, k + 1) == Candidate(filePath, n);
      assert FirstFree(src, sourceDir, filePath, k, n);
    } else {
      assert FirstFree(src, sourceDir, filePath, k, k);
    }
  }

  /** The collision loop: suffix the script name until it is free in the source directory. */
  method ScriptFileName(src: map<string, FileData>, sourceDir: string, filePath: string) returns (name: string)
    requires NormalRel(filePath) && Extname(filePath) == ".html"
    ensures name == FreeFrom(src, sourceDir, filePath, 0)
    ensures !Exists(src, Join(sourceDir, name))
  {
    var i := 0;
    name := ReplaceFirst(filePath, ".html", ".js");
    while Exists(src, Join(sourceDir, name))
      invariant name == Candidate(filePath, i)
      invariant FreeFrom(src, sourceDir, filePath, i) == FreeFrom(src, sourceDir, filePath, 0)
      decreases MaxLength(src.Keys) + 1 - |Join(sourceDir, name)|
    {
      CandidateGrows(sourceDir, filePath, i);
      ExistsBound(src, Join(sourceDir, name));
      i := i + 1;
      name := ReplaceFirst(name, ".js", "_" + NatToString(i) + ".js");
      assert name == Candidate(filePath, i);
    }
  }

  /** `.js` at index `j`, character by character. */
  predicate JsAt(s: string, j: nat) {
    j + 3 <= |s| && s[j] == '.' && s[j + 1] == 'j' && s[j + 2] == 's'
  }

  lemma JsAtIff(s: string, j: nat)
    ensures OccursAt(s, ".js", j) <==> JsAt(s, j)
  {
    if j + 3 <= |s| {
      if JsAt(s, j) {
        assert s[j..j + 3] == ".js";
      }
      if OccursAt(s, ".js", j) {
        assert s[j..j + 3][0] == s[j] && s[j..j + 3][1] == s[j + 1] && s[j..j + 3][2] == s[j + 2];
      }
    }
  }

  /** `s` holds no `.js`. */
  predicate NoJs(s: string) {
    forall j: nat :: j < |s| ==> !JsAt(s, j)
  }

  /** The counters appended after `k` collisions: `_1_2…_k`. */
  function Counters(k: nat): string {
    if k == 0 then "" else Counters(k - 1) + Tag(k)
  }

  /** The counter one collision appends. */
  function Tag(k: nat): string {
    "_" + NatToString(k)
  }

  /** In `stem.js` with no `.js` in `stem`, the first `.js` is the last one. */
  lemma ReplaceAtEnd(stem: string, m: string)
    requires NoJs(stem)
    ensures ReplaceFirst(stem + ".js", ".js", m) == stem + m
  {
    var s := stem + ".js";
    assert s[|stem|] == '.' && s[|stem| + 1] == 'j' && s[|stem| + 2] == 's';
    forall j: nat | j < |stem| ensures !OccursAt(s, ".js", j) {
      JsAtIff(s, j);
      if j + 3 <= |stem| {
        assert s[j] == stem[j] && s[j + 1] == stem[j + 1] && s[j + 2] == stem[j + 2];
        assert !JsAt(stem, j);
      }
    }
    JsAtIff(s, |stem|);
    assert IndexOf(s, ".js") == Some(|stem|);
    assert s[..|stem|] == stem && s[|stem| + 3..] == [];
  }

  /** A counter adds no `.js`. */
  lemma NoJsExtend(stem: string, k: nat)
    requires NoJs(stem)
    ensures NoJs(stem + "_" + NatToString(k))
  {
    var n := NatToString(k);
    var t := stem + "_" + n;
    forall j: nat | j < |t| ensures !JsAt(t, j) {
      if j + 3 <= |stem| {
        assert t[j] == stem[j] && t[j + 1] == stem[j + 1] && t[j + 2] == stem[j + 2];
        assert !JsAt(stem, j);
      } else if j + 2 == |stem| {
        assert t[j + 2] == '_';
      } else if j + 1 == |stem| {
        assert t[j + 1] == '_';
      } else if j + 3 <= |t| {
        assert j >= |stem|;
        assert t[j] == '_' || t[j] == n[j - |stem| - 1];
      }
    }
  }

  /** One collision on `prev.js` with no `.js` in `prev`. */
  lemma AccumulateStep(prev: string, k: nat)
    requires NoJs(prev)
    ensures ReplaceFirst(prev + ".js", ".js", Suffix(k)) == (prev + Tag(k)) + ".js"
    ensures NoJs(prev + Tag(k))
  {
    ReplaceAtEnd(prev, Suffix(k));
    NoJsExtend(prev, k);
    assert prev + "_" + NatToString(k) == prev + Tag(k);
  }

  /**
   * Suffixes accumulate: when the first name is `stem.js` with no other
   * `.js`, the name after `k` collisions is `stem_1_2…_k.js`.
   */
  lemma {:induction false} CandidateAccumulates(filePath: string, stem: string, k: nat)
    requires ScriptBase(filePath) == stem + ".js" && NoJs(stem)
    ensures Candidate(filePath, k) == stem + Counters(k) + ".js"
    ensures NoJs(stem + Counters(k))
  {
    if k == 0 {
      assert stem + Counters(k) == stem;
    } else {
      CandidateAccumulates(filePath, stem, k - 1);
      AppendAssoc(stem, Counters(k - 1), Tag(k));
      AccumulateStep(stem + Counters(k - 1), k);
    }
  }

  /** Each collision appends another counter: `a.html` goes to `a.js`, `a_1.js`, `a_1_2.js`. */
  lemma CandidateExample(p: string)
    requires p == "a.html"
    ensures Candidate(p, 0) == "a.js"
    ensures Candidate(p, 2) == "a_1_2.js"
  {
    ExampleBase(p);
    CandidateAccumulates(p, "a", 2);
    TwoCounters();
  }

  lemma ExampleBase(p: string)
    requires p == "a.html"
    ensures ScriptBase(p) == "a" + ".js"
  {
    assert p[0] != '.' && OccursAt(p, ".html", 1);
    assert IndexOf(p, ".html") == Some(1);
  }

  lemma TwoCounters()
    ensures "a" + Counters(2) + ".js" == "a_1_2.js"
  {
    assert Tag(1) == "_1" && Tag(2) == "_2";
    assert Counters(1) == "_1";
    assert Counters(2) == "_1_2";
  }

  /**
   * `replace` changes the first `.html`, which may be a directory's: the
   * script of `x.html/index.html` is named `x.js/index.html`, and its
   * placeholder points at `index.html`.
   */
  lemma ReplacementInDirectory(p: string)
    requires p == "x.html/index.html"
    ensures ScriptBase(p) == "x.js/index.html"
    ensures Basename(ScriptBase(p)) == "index.html"
  {
    assert p[0] != '.' && OccursAt(p, ".html", 1);
    assert IndexOf(p, ".html") == Some(1);
    IndexBasename(ScriptBase(p));
  }

  lemma IndexBasename(s: string)
    requires s == "x.js/index.html"
    ensures Basename(s) == "index.html"
  {
    assert s[4] == Sep;
    assert s[5..] == "index.html";
    assert forall j :: 0 <= j < |s[5..]| ==> s[5..][j] != Sep;
    BasenameAfter(s, 4);
  }

  /** The base name is what follows a separator with none after it. */
  lemma BasenameAfter(s: string, i: nat)
    requires i < |s| && s[i] == Sep && Sep !in s[i + 1..]
    ensures Basename(s) == s[i + 1..]
  {
    assert LastIndexOfChar(s, Sep) == Some(i);
  }

  // ---------------------------------------------------------------------
  // What a page turns into.

  /** The script file written beside a page. */
  datatype ScriptFile = ScriptFile(name: string, content: string)

  /** The rewritten document and, when it had inline bodies, the script file. */
  datatype PageOutput = PageOutput(document: seq<Element>, script: Option<ScriptFile>)

  /**
   * The html branch of `processFile` for the page at `filePath` with
   * elements `es`: the link pass, then the script pass, then the placeholder
   * for the collected bodies under the first free name.
   */
  function PageOf(src: map<string, FileData>, sourceDir: string, filePath: string, es: seq<Element>): Option<PageOutput>
    requires NormalRel(filePath) && Extname(filePath) == ".html"
  {
    match RewriteLinks(sourceDir, filePath, es)
    case None => None
    case Some(linked) =>
      match RewriteScripts(sourceDir, filePath, linked)
      case None => None
      case Some(p) =>
        if p.bodies == [] then Some(PageOutput(p.elements, None))
        else
          var name := FreeFrom(src, sourceDir, filePath, 0);
          Some(PageOutput(p.elements + [WcmScript(None, Basename(name))], Some(ScriptFile(name, Concat(p.bodies)))))
  }

  /**
   * A page gets a script file exactly when it has inline bodies; the file
   * holds them joined in document order under a name free in the source
   * directory, and exactly one placeholder naming it ends the document, after
   * the kept elements. The document loses one element per inline body, per
   * import without lookup and per script without lookup.
   */
  lemma PageScript(src: map<string, FileData>, sourceDir: string, filePath: string, es: seq<Element>)
    requires NormalRel(filePath) && Extname(filePath) == ".html"
    requires PageOf(src, sourceDir, filePath, es).Some?
    ensures var page := PageOf(src, sourceDir, filePath, es).value;
      && (page.script.Some? <==> InlineBodies(es) != [])
      && |page.document| + |InlineBodies(es)| + DroppedLinks(sourceDir, filePath, es) + VanishedScripts(sourceDir, filePath, es)
         == |es| + (if page.script.Some? then 1 else 0)
      && (page.script.Some? ==> page.script.value.content == Concat(InlineBodies(es)))
      && (page.script.Some? ==> !Exists(src, Join(sourceDir, page.script.value.name)))
      && (page.script.Some? ==> page.document[|page.document| - 1] == WcmScript(None, Basename(page.script.value.name)))
  {
    var linked := RewriteLinks(sourceDir, filePath, es).value;
    LinksKeep(sourceDir, filePath, es);
    ScriptsBodies(sourceDir, filePath, linked);
    FreeFromIsFirst(src, sourceDir, filePath, 0);
  }

  // ---------------------------------------------------------------------
  // The processed-path list and the traversal.

  /** The `processedPaths` array shared by all calls. */
  class PathList {
    var paths: seq<string>

    constructor ()
      ensures paths == []
    {
      paths := [];
    }

    /** `processedPaths.includes(p)`. */
    predicate Includes(p: string)
      reads this
    {
      p in paths
    }

    /** `processedPaths.push(p)`. */
    method Push(p: string)
      modifies this
      ensures paths == old(paths) + [p]
    {
      paths := paths + [p];
    }
  }

  predicate Distinct(s: seq<string>) {
    forall i, j :: 0 <= i < j < |s| ==> s[i] != s[j]
  }

  /** `b` extends `a`. */
  predicate Grows(a: seq<string>, b: seq<string>) {
    |a| <= |b| && b[..|a|] == a
  }

  lemma GrowsTrans(a: seq<string>, b: seq<string>, c: seq<string>)
    requires Grows(a, b) && Grows(b, c)
    ensures Grows(a, c)
  {
    assert c[..|a|] == c[..|b|][..|a|];
  }

  lemma GrowsKeeps(a: seq<string>, b: seq<string>, x: string)
    requires Grows(a, b) && x in a
    ensures x in b
  {
    var i :| 0 <= i < |a| && a[i] == x;
    assert b[i] == b[..|a|][i];
  }

  /** Every path that exists in `src`: the prefixes of its entries. */
  ghost function Prefixes(src: map<string, FileData>): set<string> {
    set q, n | q in src && 0 <= n <= |q| :: q[..n]
  }

  /** The existing paths not yet processed: what bounds the recursion. */
  ghost function Pending(src: map<string, FileData>, paths: seq<string>): nat {
    |Prefixes(src) - set p | p in paths|
  }

  lemma SubsetCard(a: set<string>, b: set<string>)
    requires a <= b
    ensures |a| <= |b|
  {
    assert b == a + (b - a);
    assert a * (b - a) == {};
  }

  lemma PendingShrinks(src: map<string, FileData>, a: seq<string>, b: seq<string>)
    requires Grows(a, b)
    ensures Pending(src, b) <= Pending(src, a)
  {
    forall x | x in a ensures x in b {
      GrowsKeeps(a, b, x);
    }
    SubsetCard(Prefixes(src) - (set p | p in b), Prefixes(src) - (set p | p in a));
  }

  lemma PendingPush(src: map<string, FileData>, a: seq<string>, x: string)
    requires Exists(src, x) && x !in a
    ensures Pending(src, a + [x]) < Pending(src, a)
  {
    var q :| q in src && Under(q, x);
    assert q[..|x|] == x;
    var before, after := Prefixes(src) - (set p | p in a), Prefixes(src) - (set p | p in a + [x]);
    assert x in before;
    assert after == before - {x};
  }

  /** The elements of a page as the selectors see them; a text file has none. */
  function PageElements(data: FileData): seq<Element> {
    match data
    case Document(es) => es
    case Text(_) => []
  }

  /** `out` holds what the html branch writes for `page`. */
  predicate Written(files: map<string, FileData>, outputDir: string, filePath: string, page: PageOutput) {
    && Join(outputDir, filePath) in files
    && files[Join(outputDir, filePath)] == Document(page.document)
    && (page.script.Some? && Join(outputDir, page.script.value.name) != Join(outputDir, filePath) ==>
          Join(outputDir, page.script.value.name) in files
          && files[Join(outputDir, page.script.value.name)] == Text(page.script.value.content))
  }

  /** The tree after the page's two writes: its script file, when it has one, then the page. */
  function WrittenFiles(files: map<string, FileData>, outputDir: string, filePath: string, page: PageOutput): map<string, FileData> {
    var withScript := if page.script.Some? then files[Join(outputDir, page.script.value.name) := Text(page.script.value.content)] else files;
    withScript[Join(outputDir, filePath) := Document(page.document)]
  }

  /**
   * The two writes leave the page and its script file as `Written` says,
   * and every other path as it was: without inline bodies no script file
   * appears.
   */
  lemma WrittenFilesFrame(files: map<string, FileData>, outputDir: string, filePath: string, page: PageOutput)
    ensures Written(WrittenFiles(files, outputDir, filePath, page), outputDir, filePath, page)
    ensures WrittenFiles(files, outputDir, filePath, page).Keys == files.Keys + {Join(outputDir, filePath)} +
      (if page.script.Some? then {Join(outputDir, page.script.value.name)} else {})
    ensures forall p :: p in files && p != Join(outputDir, filePath) && (page.script.Some? ==> p != Join(outputDir, page.script.value.name)) ==>
      WrittenFiles(files, outputDir, filePath, page)[p] == files[p]
  {
  }

  /** An import the walk follows: matched by the selector and relative. */
  predicate RelativeImport(sourceDir: string, filePath: string, e: Element) {
    e.IsImport() && IsRelative(sourceDir, filePath, e.href)
  }

  /** The path `processFile` records for the page a relative import names. */
  function ImportTarget(sourceDir: string, filePath: string, e: Element): string
    requires RelativeImport(sourceDir, filePath, e)
  {
    Resolve(sourceDir, Join(Dirname(filePath), e.href.value))
  }

  /** The page of every relative import in `es` is recorded in `paths`. */
  predicate ImportsVisited(sourceDir: string, filePath: string, es: seq<Element>, paths: seq<string>) {
    forall k :: 0 <= k < |es| && RelativeImport(sourceDir, filePath, es[k]) ==> ImportTarget(sourceDir, filePath, es[k]) in paths
  }

  /** No element of `es` is an import the walk follows. */
  predicate NoRelativeImports(sourceDir: string, filePath: string, es: seq<Element>) {
    forall k :: 0 <= k < |es| ==> !RelativeImport(sourceDir, filePath, es[k])
  }

  /** One more link step extends the pass over a prefix. */
  lemma LinksStep(sourceDir: string, filePath: string, es: seq<Element>, i: nat, linked: seq<Element>, ws: seq<Element>)
    requires i < |es| && RewriteLinks(sourceDir, filePath, es[..i]) == Some(linked)
    requires LinkStep(sourceDir, filePath, es[i]) == Some(ws)
    ensures RewriteLinks(sourceDir, filePath, es[..i + 1]) == Some(linked + ws)
  {
    assert es[..i + 1][..i] == es[..i] && es[..i + 1][i] == es[i];
  }

  /** A recorded import stays recorded as the list grows, and one more step extends the prefix. */
  lemma VisitedStep(sourceDir: string, filePath: string, es: seq<Element>, i: nat, a: seq<string>, b: seq<string>)
    requires i < |es| && ImportsVisited(sourceDir, filePath, es[..i], a) && Grows(a, b)
    requires RelativeImport(sourceDir, filePath, es[i]) ==> ImportTarget(sourceDir, filePath, es[i]) in b
    ensures ImportsVisited(sourceDir, filePath, es[..i + 1], b)
  {
    forall k | 0 <= k < i && RelativeImport(sourceDir, filePath, es[k])
      ensures ImportTarget(sourceDir, filePath, es[k]) in b
    {
      assert es[..i][k] == es[k];
      GrowsKeeps(a, b, ImportTarget(sourceDir, filePath, es[k]));
    }
  }

  /**
   * `processFile(sourceDir, outputDir, filePath, processedPaths)`. Returns
   * false when the call's promise rejects.
   */
  method ProcessFile(src: map<string, FileData>, out: FileSystem, processed: PathList,
                     sourceDir: string, outputDir: string, filePath: string) returns (ok: bool)
    requires NormalRel(filePath)
    requires Distinct(processed.paths)
    modifies out, processed
    ensures Distinct(processed.paths) && Grows(old(processed.paths), processed.paths)
    ensures old(out.files).Keys <= out.files.Keys
    ensures Resolve(sourceDir, filePath) in processed.paths
    ensures Resolve(sourceDir, filePath) in old(processed.paths) ==>
      ok && processed.paths == old(processed.paths) && out.files == old(out.files)
    ensures Resolve(sourceDir, filePath) !in old(processed.paths) ==>
      processed.paths[|old(processed.paths)|] == Resolve(sourceDir, filePath)
    ensures Resolve(sourceDir, filePath) !in old(processed.paths) && !Exists(src, Join(sourceDir, filePath)) ==>
      ok && processed.paths == old(processed.paths) + [Resolve(sourceDir, filePath)] && out.files == old(out.files)
    ensures (Resolve(sourceDir, filePath) !in old(processed.paths) && Exists(src, Join(sourceDir, filePath))
             && Extname(filePath) != ".html") ==>
      && ok
      && processed.paths == old(processed.paths) + [Resolve(sourceDir, filePath)]
      && out.files == old(out.files) + Copies(src, Join(sourceDir, filePath), Join(outputDir, filePath))
    ensures (Resolve(sourceDir, filePath) !in old(processed.paths) && Exists(src, Join(sourceDir, filePath))
             && Extname(filePath) == ".html" && ok) ==>
      && Join(sourceDir, filePath) in src
      && var es := PageElements(src[Join(sourceDir, filePath)]);
      && PageOf(src, sourceDir, filePath, es).Some?
      && Written(out.files, outputDir, filePath, PageOf(src, sourceDir, filePath, es).value)
      && ImportsVisited(sourceDir, filePath, es, processed.paths)
      && (NoRelativeImports(sourceDir, filePath, es) ==>
            && out.files == WrittenFiles(old(out.files), outputDir, filePath, PageOf(src, sourceDir, filePath, es).value)
            && processed.paths == old(processed.paths) + [Resolve(sourceDir, filePath)])
    decreases Pending(src, processed.paths), 0
  {
    var resolved := Resolve(sourceDir, filePath);
    if processed.Includes(resolved) {
      return true;
    }
    processed.Push(resolved);
    var full := Join(sourceDir, filePath);
    if !Exists(src, full) {
      return true;
    }
    NormalRelHead(filePath);
    assert resolved == full;
    PendingPush(src, old(processed.paths), resolved);
    if Extname(filePath) == ".html" {
      if full !in src {
        return false;
      }
      ok := ProcessPage(src, out, processed, sourceDir, outputDir, filePath, PageElements(src[full]));
      GrowsTrans(old(processed.paths), old(processed.paths) + [resolved], processed.paths);
      assert processed.paths[..|old(processed.paths)| + 1][|old(processed.paths)|] == resolved;
    } else {
      var copied := out.Import(src, full, Join(outputDir, filePath));
      ok := true;
    }
  }

  /** The html branch of `processFile`, on the page's elements. */
  method ProcessPage(src: map<string, FileData>, out: FileSystem, processed: PathList,
                     sourceDir: string, outputDir: string, filePath: string, es: seq<Element>) returns (ok: bool)
    requires NormalRel(filePath) && Extname(filePath) == ".html"
    requires Distinct(processed.paths)
    modifies out, processed
    ensures Distinct(processed.paths) && Grows(old(processed.paths), processed.paths)
    ensures old(out.files).Keys <= out.files.Keys
    ensures ok ==> PageOf(src, sourceDir, filePath, es).Some?
    ensures ok ==> Written(out.files, outputDir, filePath, PageOf(src, sourceDir, filePath, es).value)
    ensures ok ==> ImportsVisited(sourceDir, filePath, es, processed.paths)
    ensures ok && NoRelativeImports(sourceDir, filePath, es) ==>
      && out.files == WrittenFiles(old(out.files), outputDir, filePath, PageOf(src, sourceDir, filePath, es).value)
      && processed.paths == old(processed.paths)
    decreases Pending(src, processed.paths), 5
  {
    var linked;
    ok, linked := ProcessLinks(src, out, processed, sourceDir, outputDir, filePath, es);
    if !ok {
      return;
    }
    var pass := ProcessScripts(sourceDir, filePath, linked);
    if pass.None? {
      return false;
    }
    ghost var linkedFiles := out.files;
    ghost var page := PageOf(src, sourceDir, filePath, es).value;
    var elements := pass.value.elements;
    if pass.value.bodies != [] {
      var name := ScriptFileName(src, sourceDir, filePath);
      elements := elements + [WcmScript(None, Basename(name))];
      out.Write(Join(outputDir, name), Text(Concat(pass.value.bodies)));
    }
    out.Write(Join(outputDir, filePath), Document(elements));
    assert out.files == WrittenFiles(linkedFiles, outputDir, filePath, page);
  }

  /**
   * The link half of the page: relative imports are processed in turn,
   * external ones replaced by their placeholder or removed.
   */
  method ProcessLinks(src: map<string, FileData>, out: FileSystem, processed: PathList,
                      sourceDir: string, outputDir: string, filePath: string, es: seq<Element>)
      returns (ok: bool, linked: seq<Element>)
    requires NormalRel(filePath)
    requires Distinct(processed.paths)
    modifies out, processed
    ensures Distinct(processed.paths) && Grows(old(processed.paths), processed.paths)
    ensures old(out.files).Keys <= out.files.Keys
    ensures ok ==> RewriteLinks(sourceDir, filePath, es) == Some(linked)
    ensures ok ==> ImportsVisited(sourceDir, filePath, es, processed.paths)
    ensures NoRelativeImports(sourceDir, filePath, es) ==> out.files == old(out.files) && processed.paths == old(processed.paths)
    decreases Pending(src, processed.paths), 4
  {
    ok, linked := true, [];
    ghost var start := processed.paths;
    var i := 0;
    while i < |es|
      invariant 0 <= i <= |es| && ok
      invariant RewriteLinks(sourceDir, filePath, es[..i]) == Some(linked)
      invariant ImportsVisited(sourceDir, filePath, es[..i], processed.paths)
      invariant Distinct(processed.paths) && Grows(start, processed.paths)
      invariant old(out.files).Keys <= out.files.Keys
      invariant (forall k :: 0 <= k < i ==> !RelativeImport(sourceDir, filePath, es[k])) ==>
        out.files == old(out.files) && processed.paths == start
    {
      ok, linked := LinkAt(src, out, processed, sourceDir, outputDir, filePath, es, i, linked, start);
      if !ok {
        break;
      }
      i := i + 1;
    }
    if ok {
      assert es[..|es|] == es;
    }
  }

  /**
   * One turn of the loop in `processLinks`, with the list as it was when the
   * loop began: the element at `i` is processed, and the pass over the
   * elements before it grows by what replaces it.
   */
  method LinkAt(src: map<string, FileData>, out: FileSystem, processed: PathList,
                sourceDir: string, outputDir: string, filePath: string, es: seq<Element>, i: nat, linked: seq<Element>,
                ghost start: seq<string>)
      returns (ok: bool, grown: seq<Element>)
    requires NormalRel(filePath)
    requires Distinct(processed.paths) && Grows(start, processed.paths)
    requires i < |es| && RewriteLinks(sourceDir, filePath, es[..i]) == Some(linked)
    requires ImportsVisited(sourceDir, filePath, es[..i], processed.paths)
    modifies out, processed
    ensures Distinct(processed.paths) && Grows(start, processed.paths)
    ensures old(out.files).Keys <= out.files.Keys
    ensures ok ==> RewriteLinks(sourceDir, filePath, es[..i + 1]) == Some(grown)
    ensures ok ==> ImportsVisited(sourceDir, filePath, es[..i + 1], processed.paths)
    ensures !RelativeImport(sourceDir, filePath, es[i]) ==> out.files == old(out.files) && processed.paths == old(processed.paths)
    decreases Pending(src, start), 3
  {
    PendingShrinks(src, start, processed.paths);
    var ws;
    ok, ws := ProcessLink(src, out, processed, sourceDir, outputDir, filePath, es[i]);
    GrowsTrans(start, old(processed.paths), processed.paths);
    grown := linked + ws;
    if ok {
      VisitedStep(sourceDir, filePath, es, i, old(processed.paths), processed.paths);
      LinksStep(sourceDir, filePath, es, i, linked, ws);
    }
  }

  /**
   * `processLinkElem` on one element: a relative import has its page
   * processed and stays, an external one gives way to its placeholder.
   */
  method ProcessLink(src: map<string, FileData>, out: FileSystem, processed: PathList,
                     sourceDir: string, outputDir: string, filePath: string, e: Element)
      returns (ok: bool, ws: seq<Element>)
    requires NormalRel(filePath)
    requires Distinct(processed.paths)
    modifies out, processed
    ensures Distinct(processed.paths) && Grows(old(processed.paths), processed.paths)
    ensures old(out.files).Keys <= out.files.Keys
    ensures ok ==> LinkStep(sourceDir, filePath, e) == Some(ws)
    ensures RelativeImport(sourceDir, filePath, e) ==> ImportTarget(sourceDir, filePath, e) in processed.paths
    ensures !RelativeImport(sourceDir, filePath, e) ==> out.files == old(out.files) && processed.paths == old(processed.paths)
    decreases Pending(src, processed.paths), 2
  {
    ws := [e];
    ok := true;
    if External(sourceDir, filePath, e) {
      var p := LinkPlaceholder(e);
      if p.None? {
        return false, [];
      }
      ws := p.value;
    } else if e.IsImport() {
      JoinDirnameNormal(filePath, e.href.value);
      ok := Visit(src, out, processed, sourceDir, outputDir, Join(Dirname(filePath), e.href.value));
    }
  }

  /**
   * `processFile` as its callers see it: the list only grows, stays free of
   * duplicates and ends up holding the path.
   */
  method Visit(src: map<string, FileData>, out: FileSystem, processed: PathList,
                      sourceDir: string, outputDir: string, path: string) returns (ok: bool)
    requires NormalRel(path)
    requires Distinct(processed.paths)
    modifies out, processed
    ensures Distinct(processed.paths) && Grows(old(processed.paths), processed.paths)
    ensures old(out.files).Keys <= out.files.Keys
    ensures Resolve(sourceDir, path) in processed.paths
    decreases Pending(src, processed.paths), 1
  {
    ok := ProcessFile(src, out, processed, sourceDir, outputDir, path);
  }

  /** The inner loop of `exec`: the files matched by one entry, in order. */
  method ProcessEntry(src: map<string, FileData>, out: FileSystem, processed: PathList,
                      rootDir: string, outDir: string, files: seq<string>) returns (ok: bool)
    requires forall k :: 0 <= k < |files| ==> NormalRel(files[k])
    requires Distinct(processed.paths)
    modifies out, processed
    ensures Distinct(processed.paths) && Grows(old(processed.paths), processed.paths)
    ensures ok ==> forall k :: 0 <= k < |files| ==> Resolve(rootDir, files[k]) in processed.paths
  {
    var j := 0;
    while j < |files|
      invariant 0 <= j <= |files|
      invariant Distinct(processed.paths) && Grows(old(processed.paths), processed.paths)
      invariant forall k :: 0 <= k < j ==> Resolve(rootDir, files[k]) in processed.paths
    {
      ghost var before := processed.paths;
      ok := Visit(src, out, processed, rootDir, outDir, files[j]);
      if !ok {
        return;
      }
      GrowsTrans(old(processed.paths), before, processed.paths);
      forall x | x in before ensures x in processed.paths {
        GrowsKeeps(before, processed.paths, x);
      }
      j := j + 1;
    }
    ok := true;
  }

  /**
   * `exec()`: every file that `matches` finds for each entry of `main` below
   * `rootDir`, as a path relative to it, is processed in order. Returns
   * whether every call succeeded and the list of processed paths.
   */
  method Exec(src: map<string, FileData>, out: FileSystem, rootDir: string, outDir: string,
              main: OneOrMany<string>, matches: string -> seq<string>) returns (ok: bool, processedPaths: seq<string>)
    requires forall e, k :: 0 <= k < |matches(e)| ==> NormalRel(matches(e)[k])
    modifies out
    ensures Distinct(processedPaths)
    ensures ok ==> forall e, k :: e in EnsureArray(main) && 0 <= k < |matches(e)| ==>
      Resolve(rootDir, matches(e)[k]) in processedPaths
  {
    var processed := new PathList();
    var entries := EnsureArray(main);
    var i := 0;
    while i < |entries|
      invariant 0 <= i <= |entries|
      invariant Distinct(processed.paths)
      invariant forall j, k :: 0 <= j < i && 0 <= k < |matches(entries[j])| ==>
        Resolve(rootDir, matches(entries[j])[k]) in processed.paths
    {
      ghost var before := processed.paths;
      var done := ProcessEntry(src, out, processed, rootDir, outDir, matches(entries[i]));
      if !done {
        return false, processed.paths;
      }
      forall x | x in before ensures x in processed.paths {
        GrowsKeeps(before, processed.paths, x);
      }
      i := i + 1;
    }
    ok, processedPaths := true, processed.paths;
  }
}
