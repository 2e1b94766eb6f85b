/** Lexical path containment.  Paths are byte strings, one `char` a byte; the model
    of `filepath` is the Unix one. */
module Paths {
  import opened Text

  // ----- cleaning ------------------------------------------------------------

  /** A cleaned path: absolute or not, and its components. */
  datatype Path = Path(rooted: bool, parts: seq<string>) {
    /** No empty or "." component, and ".." only in front of a relative path. */
    predicate Normal() {
      && (forall i :: 0 <= i < |parts| ==> parts[i] != "" && parts[i] != "." && '/' !in parts[i])
      && (forall i :: 0 <= i < |parts| && parts[i] == ".." ==>
            !rooted && forall j :: 0 <= j < i ==> parts[j] == "..")
    }

    function ToString(): string {
      if rooted then "/" + Join(parts, '/')
      else if parts == [] then "."
      else Join(parts, '/')
    }
  }

  predicate IsAbs(s: string) { s != "" && s[0] == '/' }

  /** One component walked from a directory: ".." goes up, but not above the root. */
  function Walk1(rooted: bool, at: seq<string>, part: string): seq<string> {
    if part == "" || part == "." then at
    else if part == ".." then
      if at != [] && at[|at| - 1] != ".." then at[..|at| - 1]
      else if rooted then at
      else at + [".."]
    else at + [part]
  }

  function Walk(rooted: bool, at: seq<string>, parts: seq<string>): seq<string>
    decreases |parts|
  {
    if parts == [] then at else Walk(rooted, Walk1(rooted, at, parts[0]), parts[1..])
  }

  function Parse(s: string): Path {
    Path(IsAbs(s), Walk(IsAbs(s), [], Split(s, '/')))
  }

  /** `filepath.Clean`. */
  function Clean(s: string): string {
    Parse(s).ToString()
  }

  lemma {:induction false} WalkConcat(rooted: bool, at: seq<string>, a: seq<string>, b: seq<string>)
    ensures Walk(rooted, at, a + b) == Walk(rooted, Walk(rooted, at, a), b)
    decreases |a|
  {
    hide Walk1;
    if a == [] {
      assert a + b == b;
    } else {
      WalkConcat(rooted, Walk1(rooted, at, a[0]), a[1..], b);
      assert (a + b)[1..] == a[1..] + b;
    }
  }

  lemma {:induction false} WalkIsNormal(rooted: bool, at: seq<string>, parts: seq<string>)
    requires Path(rooted, at).Normal() && forall i :: 0 <= i < |parts| ==> '/' !in parts[i]
    ensures Path(rooted, Walk(rooted, at, parts)).Normal()
    decreases |parts|
  {
    if parts != [] { WalkIsNormal(rooted, Walk1(rooted, at, parts[0]), parts[1..]); }
  }

  /** Walking normal components only appends them. */
  lemma {:induction false} WalkOfNormal(rooted: bool, at: seq<string>, parts: seq<string>)
    requires Path(rooted, at + parts).Normal()
    ensures Walk(rooted, at, parts) == at + parts
    decreases |parts|
  {
    if parts == [] {
      assert at + parts == at;
    } else {
      var whole := at + parts;
      assert whole[|at|] == parts[0];
      assert parts[0] == ".." && at != [] ==> whole[|at| - 1] == at[|at| - 1];
      assert at + [parts[0]] + parts[1..] == whole;
      WalkOfNormal(rooted, at + [parts[0]], parts[1..]);
    }
  }

  lemma ParseIsNormal(s: string)
    ensures Parse(s).Normal()
  {
    PartsHaveNoSeparator(s, '/');
    hide Split;
    WalkIsNormal(IsAbs(s), [], Split(s, '/'));
  }

  /** How some paths are cleaned. */
  lemma KnownCleans()
    ensures Clean("") == "." && Clean(".") == "." && Clean("/") == "/" && Clean("/..") == "/"
    ensures Clean("..") == ".." && Clean("a/..") == "." && Clean("a/./b") == "a/b" && Clean("a//b/") == "a/b"
  {
    KnownSplits();
    hide Split;
    JoinTwo("a", '/', "b");
  }

  lemma KnownSplits()
    ensures Split("", '/') == [""] && Split(".", '/') == ["."] && Split("/", '/') == ["", ""]
    ensures Split("/..", '/') == ["", ".."] && Split("..", '/') == [".."] && Split("a/..", '/') == ["a", ".."]
    ensures Split("a/./b", '/') == ["a", ".", "b"] && Split("a//b/", '/') == ["a", "", "b", ""]
  {
    hide *;
    SplitOfPart("", '/');
    SplitOfPart(".", '/');
    SplitOfPart("..", '/');
    SplitOfPart("b", '/');
    assert "" + ['/'] + "" == "/" && "" + ['/'] + ".." == "/.." && "a" + ['/'] + ".." == "a/..";
    SplitAfterPart("", '/', "");
    SplitAfterPart("", '/', "..");
    SplitAfterPart("a", '/', "..");
    KnownLonger();
  }

  lemma KnownLonger()
    ensures Split("a/./b", '/') == ["a", ".", "b"] && Split("a//b/", '/') == ["a", "", "b", ""]
  {
    hide *;
    SplitOfPart("b", '/');
    SplitOfPart("", '/');
    assert "." + ['/'] + "b" == "./b" && "a" + ['/'] + "./b" == "a/./b" && "b" + ['/'] + "" == "b/";
    assert "" + ['/'] + "b/" == "/b/" && "a" + ['/'] + "/b/" == "a//b/";
    SplitAfterPart(".", '/', "b");
    SplitAfterPart("a", '/', "./b");
    SplitAfterPart("b", '/', "");
    SplitAfterPart("", '/', "b/");
    SplitAfterPart("a", '/', "/b/");
  }

  /** The first component of a text, by its first bytes. */
  lemma FirstPart(s: string)
    ensures IsAbs(s) <==> s != "" && Split(s, '/')[0] == ""
    ensures s == ".." || HasPrefix(s, "../") <==> Split(s, '/')[0] == ".."
  {
    var p := Split(s, '/');
    JoinSplit(s, '/');
    PartsHaveNoSeparator(s, '/');
    JoinFront(p);
    hide Split, Join;
    if HasPrefix(s, "../") {
      assert s[0] == '.' && s[1] == '.' && s[2] == '/';
    }
  }

  lemma JoinFront(p: seq<string>)
    requires p != []
    ensures Join(p, '/') == if |p| == 1 then p[0] else p[0] + ['/'] + Join(p[1..], '/')
  {
  }

  lemma RelativeText(p: Path)
    requires p.Normal() && !p.rooted && p.parts != []
    ensures Split(p.ToString(), '/') == p.parts && !IsAbs(p.ToString())
  {
    SplitJoin(p.parts, '/');
    FirstPart(p.ToString());
    hide Split, Join;
  }

  lemma RootedText(p: Path)
    requires p.Normal() && p.rooted
    ensures Split(p.ToString(), '/') == [""] + if p.parts == [] then [""] else p.parts
    ensures IsAbs(p.ToString())
  {
    var rest := Join(p.parts, '/');
    SplitAfterPart("", '/', rest);
    assert "" + ['/'] + rest == p.ToString();
    if p.parts != [] { SplitJoin(p.parts, '/'); }
  }

  /** A cleaned path reads back as itself, so cleaning twice is cleaning once. */
  lemma ParseToString(p: Path)
    requires p.Normal()
    ensures Parse(p.ToString()) == p
  {
    if p.rooted {
      RootedText(p);
      var tail := if p.parts == [] then [""] else p.parts;
      WalkConcat(true, [], [""], tail);
      hide Split, Join;
      assert [] + p.parts == p.parts;
      if p.parts != [] { WalkOfNormal(true, [], p.parts); }
    } else if p.parts == [] {
      SplitOfPart(".", '/');
    } else {
      RelativeText(p);
      hide Split, Join;
      assert [] + p.parts == p.parts;
      WalkOfNormal(false, [], p.parts);
    }
  }

  lemma CleanIsIdempotent(s: string)
    ensures Clean(Clean(s)) == Clean(s)
  {
    ParseIsNormal(s);
    ParseToString(Parse(s));
  }

  // ----- joining and relating ------------------------------------------------

  /** `filepath.Join`: leading empty elements are ignored. */
  function JoinPaths(elems: seq<string>): string
    decreases |elems|
  {
    if elems == [] then ""
    else if elems[0] == "" then JoinPaths(elems[1..])
    else Clean(Join(elems, '/'))
  }

  function CommonPrefix(a: seq<string>, b: seq<string>): (n: nat)
    ensures n <= |a| && n <= |b| && a[..n] == b[..n]
    ensures n < |a| && n < |b| ==> a[n] != b[n]
  {
    if a != [] && b != [] && a[0] == b[0] then
      var n := CommonPrefix(a[1..], b[1..]) + 1;
      assert a[..n] == [a[0]] + a[1..][..n - 1] && b[..n] == [b[0]] + b[1..][..n - 1];
      n
    else 0
  }

  /** `filepath.Rel`.  There is none between an absolute and a relative path, or when the
      base leads further up than can be told.  For the target "." Go leaves a "/." at the
      end of the way up; the callers look at the beginning only. */
  function Rel(base: string, target: string): Option<string> {
    var b, t := Parse(base), Parse(target);
    var n := CommonPrefix(b.parts, t.parts);
    if b.rooted != t.rooted || (n < |b.parts| && b.parts[n] == "..") then None
    else Some(Path(false, Ups(|b.parts| - n) + t.parts[n..]).ToString())
  }

  function Ups(n: nat): (r: seq<string>)
    ensures |r| == n && forall i :: 0 <= i < n ==> r[i] == ".."
  {
    seq(n, _ => "..")
  }

  /** Taking the relative path from the base leads to the target. */
  lemma RelLeadsToTarget(base: string, target: string)
    requires Rel(base, target).Some?
    ensures var rel := Parse(Rel(base, target).value);
            !rel.rooted && Walk(Parse(base).rooted, Parse(base).parts, rel.parts) == Parse(target).parts
  {
    var b, t, rooted := Parse(base).parts, Parse(target).parts, Parse(base).rooted;
    var n := CommonPrefix(b, t);
    ParseIsNormal(base);
    ParseIsNormal(target);
    assert Parse(base) == Path(rooted, b) && Parse(target) == Path(rooted, t);
    hide Parse, CommonPrefix, Walk, Path.Normal, Path.ToString;
    RelIsNormal(rooted, b, t, n);
    ParseToString(Path(false, Ups(|b| - n) + t[n..]));
    RelWalks(rooted, b, t, n);
  }

  /** There is a relative path exactly between two absolute or two relative paths, when
      the target goes up at least as far as the base. */
  lemma RelIff(base: string, target: string)
    ensures Rel(base, target).Some? <==>
            var b, t := Parse(base).parts, Parse(target).parts;
            && IsAbs(base) == IsAbs(target)
            && forall i :: 0 <= i < |b| && b[i] == ".." ==> i < |t| && t[i] == ".."
  {
    ParseIsNormal(base);
    var b, t := Parse(base).parts, Parse(target).parts;
    assert Parse(base) == Path(IsAbs(base), b) && Parse(target).rooted == IsAbs(target);
    hide Parse, Path.ToString, CommonPrefix, Path.Normal;
    UpsShared(IsAbs(base), b, t, CommonPrefix(b, t));
  }

  lemma UpsShared(rooted: bool, b: seq<string>, t: seq<string>, n: nat)
    requires Path(rooted, b).Normal() && n <= |b| && n <= |t| && b[..n] == t[..n]
    requires n < |b| && n < |t| ==> b[n] != t[n]
    ensures (n < |b| && b[n] == "..") <==> !forall i :: 0 <= i < |b| && b[i] == ".." ==> i < |t| && t[i] == ".."
  {
    forall i | 0 <= i < n ensures b[i] == t[i] {
      assert b[..n][i] == t[..n][i];
    }
  }

  lemma RelWalks(rooted: bool, b: seq<string>, t: seq<string>, n: nat)
    requires Path(rooted, b).Normal() && Path(rooted, t).Normal() && n <= |b| && n <= |t| && b[..n] == t[..n]
    requires n < |b| ==> b[n] != ".."
    ensures Walk(rooted, b, Ups(|b| - n) + t[n..]) == t
  {
    hide *;
    WalkConcat(rooted, b, Ups(|b| - n), t[n..]);
    NoMoreUps(rooted, b, n);
    WalkUps(rooted, b, |b| - n);
    Rejoined(b, t, n);
    WalkOfNormal(rooted, b[..n], t[n..]);
  }

  lemma Rejoined(b: seq<string>, t: seq<string>, n: nat)
    requires n <= |b| && n <= |t| && b[..n] == t[..n]
    ensures b[..n] + t[n..] == t && b[..|b| - (|b| - n)] == b[..n]
  {
  }

  /** Behind a component that is not ".." there is none. */
  lemma NoMoreUps(rooted: bool, b: seq<string>, n: nat)
    requires Path(rooted, b).Normal() && n <= |b| && (n < |b| ==> b[n] != "..")
    ensures forall i :: n <= i < |b| ==> b[i] != ".."
  {
  }

  lemma RelIsNormal(rooted: bool, b: seq<string>, t: seq<string>, n: nat)
    requires Path(rooted, b).Normal() && Path(rooted, t).Normal() && n <= |b| && n <= |t|
    ensures Path(false, Ups(|b| - n) + t[n..]).Normal()
  {
    var u, r := |b| - n, Ups(|b| - n) + t[n..];
    assert forall i :: u <= i < |r| ==> r[i] == t[i - u + n];
  }

  lemma {:induction false} WalkUps(rooted: bool, at: seq<string>, n: nat)
    requires n <= |at| && forall i :: |at| - n <= i < |at| ==> at[i] != ".."
    ensures Walk(rooted, at, Ups(n)) == at[..|at| - n]
    decreases n
  {
    if n > 0 {
      WalkUps(rooted, at[..|at| - 1], n - 1);
      assert Ups(n)[1..] == Ups(n - 1);
      assert at[..|at| - 1][..|at| - n] == at[..|at| - n];
    } else {
      assert at[..|at|] == at;
    }
  }

  // ----- containment ---------------------------------------------------------

  predicate Escapes(rel: string) {
    rel == ".." || HasPrefix(rel, "../")
  }

  function WithinRoot(root: string, candidate: string): bool {
    var r, c := Clean(root), Clean(candidate);
    c == r || (Rel(r, c).Some? && !Escapes(Rel(r, c).value) && !IsAbs(Rel(r, c).value))
  }

  /** The components of the root lead the way, and what follows does not go up. */
  predicate Leads(root: Path, p: Path) {
    && root.rooted == p.rooted && root.parts <= p.parts
    && (|root.parts| < |p.parts| ==> p.parts[|root.parts|] != "..")
  }

  predicate Inside(root: string, candidate: string) {
    Leads(Parse(root), Parse(candidate))
  }

  /** For absolute paths that is plain component containment. */
  lemma InsideAbsolute(root: string, candidate: string)
    requires IsAbs(root) && IsAbs(candidate)
    ensures Inside(root, candidate) <==> Parse(root).parts <= Parse(candidate).parts
  {
    ParseIsNormal(candidate);
    hide Walk, Split;
  }

  /** The string tests on a clean relative path look at its first component. */
  lemma EscapesFirst(p: Path)
    requires p.Normal() && !p.rooted
    ensures Escapes(p.ToString()) <==> p.parts != [] && p.parts[0] == ".."
    ensures !IsAbs(p.ToString())
  {
    FirstPart(p.ToString());
    if p.parts == [] {
      DotIsNoEscape();
    } else {
      RelativeText(p);
      hide Path.ToString, Split;
    }
  }

  lemma DotIsNoEscape()
    ensures !Escapes(".") && !IsAbs(".")
  {
  }

  /** The string tests on the relative path amount to component containment. */
  lemma RelEscapesIff(base: string, target: string)
    ensures Rel(base, target).Some? && !Escapes(Rel(base, target).value) <==> Inside(base, target)
    ensures Rel(base, target).Some? ==> !IsAbs(Rel(base, target).value)
  {
    var b, t := Parse(base).parts, Parse(target).parts;
    var n := CommonPrefix(b, t);
    ParseIsNormal(base);
    ParseIsNormal(target);
    assert Parse(base) == Path(Parse(base).rooted, b) && Parse(target) == Path(Parse(target).rooted, t);
    hide Parse, Path.ToString, Escapes, Path.Normal;
    if Parse(base).rooted == Parse(target).rooted {
      RelIsNormal(Parse(base).rooted, b, t, n);
      EscapesFirst(Path(false, Ups(|b| - n) + t[n..]));
    }
    if n < |b| {
      assert n < |t| ==> b[n] != t[n];
    } else {
      assert b == t[..n];
    }
  }

  /** `WithinRoot` holds exactly when the cleaned root is a component prefix of the
      cleaned candidate and what follows does not go up again. */
  lemma WithinRootIff(root: string, candidate: string)
    ensures WithinRoot(root, candidate) <==> Inside(root, candidate)
  {
    ParseIsNormal(root);
    ParseIsNormal(candidate);
    ParseToString(Parse(root));
    ParseToString(Parse(candidate));
    RelEscapesIff(Clean(root), Clean(candidate));
    hide Rel, Escapes, Walk, Split, Path.ToString, Path.Normal;
  }

  // ----- SafeJoin ------------------------------------------------------------

  datatype Error = PathEscape | Traversal | Absolute

  function SafeJoin(root: string, parts: seq<string>): Result<string, Error> {
    if exists i :: 0 <= i < |parts| && (IsAbs(parts[i]) || '\0' in parts[i]) then Err(PathEscape)
    else
      var joined := JoinPaths([root] + parts);
      if !WithinRoot(root, joined) then Err(PathEscape) else Ok(joined)
  }

  /** The components of all parts, in order. */
  function Components(parts: seq<string>): seq<string> {
    if parts == [] then [] else Split(parts[0], '/') + Components(parts[1..])
  }

  lemma {:induction false} SplitOfJoin(parts: seq<string>)
    requires parts != []
    ensures Split(Join(parts, '/'), '/') == Components(parts)
  {
    if |parts| == 1 {
      assert parts[1..] == [] && Components([]) == [];
    } else {
      SplitOfJoin(parts[1..]);
      SplitSeam(parts[0], Join(parts[1..], '/'));
    }
  }

  lemma SplitSeam(a: string, b: string)
    ensures Split(a + ['/'] + b, '/') == Split(a, '/') + Split(b, '/')
  {
    SplitConcat(a, ['/'] + b, '/');
    SplitAfterPart("", '/', b);
    hide Split;
    assert "" + ['/'] + b == ['/'] + b && a + ['/'] + b == a + (['/'] + b);
    Seam(Split(a, '/'), Split(b, '/'));
  }

  lemma Seam(p: seq<string>, q: seq<string>)
    requires p != []
    ensures p[..|p| - 1] + [p[|p| - 1] + ([""] + q)[0]] + ([""] + q)[1..] == p + q
  {
    assert p[|p| - 1] + "" == p[|p| - 1];
  }

  /** Joining behind a non-empty root walks the parts' components from there. */
  lemma JoinWalksFrom(root: string, parts: seq<string>)
    requires root != ""
    ensures Parse(JoinPaths([root] + parts)) ==
            Path(IsAbs(root), Walk(IsAbs(root), Parse(root).parts, Components(parts)))
    ensures Clean(JoinPaths([root] + parts)) == JoinPaths([root] + parts)
  {
    var all := [root] + parts;
    var text := Join(all, '/');
    JoinFront(all);
    assert all[1..] == parts && IsAbs(text) == IsAbs(root);
    ParseIsNormal(text);
    ParseToString(Parse(text));
    CleanIsIdempotent(text);
    SplitOfJoin(all);
    assert Components(all) == Split(root, '/') + Components(parts);
    WalkConcat(IsAbs(root), [], Split(root, '/'), Components(parts));
    hide Split, Join, Walk, Path.ToString, Path.Normal;
  }

  predicate AllRelative(parts: seq<string>) {
    forall i :: 0 <= i < |parts| ==> !IsAbs(parts[i])
  }

  /** Without a root the first non-empty part takes its place. */
  lemma {:induction false} JoinWalksNowhere(parts: seq<string>)
    requires AllRelative(parts)
    ensures Parse(JoinPaths(parts)) == Path(false, Walk(false, [], Components(parts)))
    ensures JoinPaths(parts) == "" || Clean(JoinPaths(parts)) == JoinPaths(parts)
    decreases |parts|
  {
    EmptyPath();
    if parts != [] {
      assert parts == [parts[0]] + parts[1..];
      if parts[0] == "" {
        JoinWalksNowhere(parts[1..]);
        WalkConcat(false, [], [""], Components(parts[1..]));
      } else {
        JoinWalksFrom(parts[0], parts[1..]);
        WalkConcat(false, [], Split(parts[0], '/'), Components(parts[1..]));
      }
    }
    hide Split, Join, Path.ToString, Clean;
  }

  lemma EmptyPath()
    ensures Split("", '/') == [""] && Walk(false, [], [""]) == [] && Parse("") == Path(false, [])
  {
    SplitOfPart("", '/');
    assert [""][1..] == [];
  }

  /** Joining walks the parts' components from the root directory. */
  lemma JoinWalks(root: string, parts: seq<string>)
    requires AllRelative(parts)
    ensures Parse(JoinPaths([root] + parts)) ==
            Path(IsAbs(root), Walk(IsAbs(root), Parse(root).parts, Components(parts)))
    ensures JoinPaths([root] + parts) == "" || Clean(JoinPaths([root] + parts)) == JoinPaths([root] + parts)
  {
    if root == "" {
      EmptyPath();
      assert ([root] + parts)[1..] == parts;
      JoinWalksNowhere(parts);
    } else {
      JoinWalksFrom(root, parts);
    }
    hide Split, Join, Walk, Path.ToString, Clean;
  }

  /** `SafeJoin` accepts exactly the parts that are relative, hold no NUL and lead
      back under the root; the result is clean and lies under the root. */
  lemma SafeJoinIff(root: string, parts: seq<string>)
    ensures var r := SafeJoin(root, parts);
            var end := Path(IsAbs(root), Walk(IsAbs(root), Parse(root).parts, Components(parts)));
            && (r.Ok? <==> (forall i :: 0 <= i < |parts| ==> !IsAbs(parts[i]) && '\0' !in parts[i])
                           && Leads(Parse(root), end))
            && (r.Ok? ==>
                  Parse(r.value) == end && (r.value == "" || Clean(r.value) == r.value) && Inside(root, r.value))
  {
    hide Walk, Split, Join, WithinRoot, Clean, JoinPaths, Components, Leads, Parse, IsAbs;
    if AllRelative(parts) {
      JoinWalks(root, parts);
      WithinRootIff(root, JoinPaths([root] + parts));
    }
  }

  // ----- archive entries -----------------------------------------------------

  /** `strings.ReplaceAll(name, "\\", "/")`. */
  function Slashed(name: string): (r: string)
    ensures |r| == |name|
  {
    seq(|name|, i requires 0 <= i < |name| => if name[i] == '\\' then '/' else name[i])
  }

  /** `safeEntryPath`. */
  function SafeEntryPath(dest: string, entry: string): Result<string, Error> {
    var name := Slashed(entry);
    if name == "" then Err(Traversal)
    else if IsAbs(name) || (|name| >= 2 && name[1] == ':') then Err(Absolute)
    else
      var clean := Clean(name);
      if Escapes(clean) then Err(Traversal)
      else
        var out := JoinPaths([dest, clean]);
        var rel := Rel(dest, out);
        if rel.None? || Escapes(rel.value) then Err(Traversal) else Ok(out)
  }

  /** A relative clean path that does not begin with ".." has none at all. */
  lemma CleanRelative(name: string)
    requires !IsAbs(name)
    ensures var p := Parse(name);
            && p.Normal() && !p.rooted
            && (Escapes(Clean(name)) <==> p.parts != [] && p.parts[0] == "..")
            && (!Escapes(Clean(name)) ==> ".." !in p.parts)
  {
    var p := Parse(name);
    ParseIsNormal(name);
    EscapesFirst(p);
    hide Parse, Path.ToString, Escapes;
    if ".." in p.parts {
      var i :| 0 <= i < |p.parts| && p.parts[i] == "..";
      assert p.parts[0] == "..";
    }
  }

  /** An entry goes exactly where its components say under the destination, unless
      its name, with backslashes read as slashes, is empty, absolute, a drive or begins with
      ".." once cleaned.  The
      last check in the code therefore never rejects anything. */
  lemma EntryPathExact(dest: string, entry: string, name: string)
    requires |name| == |entry|
    requires forall i :: 0 <= i < |name| ==> name[i] == if entry[i] == '\\' then '/' else entry[i]
    ensures var r := SafeEntryPath(dest, entry);
            && (r == Err(Absolute) <==> IsAbs(name) || (|name| >= 2 && name[1] == ':'))
            && (r == Err(Traversal) <==>
                  || name == ""
                  || (!IsAbs(name) && !(|name| >= 2 && name[1] == ':')
                      && Parse(name).parts != [] && Parse(name).parts[0] == ".."))
            && (r.Ok? ==>
                  Parse(r.value) == Path(IsAbs(dest), Parse(dest).parts + Parse(name).parts) && Inside(dest, r.value))
  {
    assert Slashed(entry) == name;
    if name != "" && !IsAbs(name) {
      CleanRelative(name);
      if !Escapes(Clean(name)) {
        EntryLands(dest, name);
        RelEscapesIff(dest, JoinPaths([dest, Clean(name)]));
      }
    }
    hide Parse, Clean, Rel, JoinPaths, Escapes, Inside;
  }

  lemma EntryLands(dest: string, name: string)
    requires !IsAbs(name) && !Escapes(Clean(name))
    ensures Parse(JoinPaths([dest, Clean(name)])) == Path(IsAbs(dest), Parse(dest).parts + Parse(name).parts)
    ensures Inside(dest, JoinPaths([dest, Clean(name)]))
  {
    var p, at := Parse(name), Parse(dest).parts;
    CleanRelative(name);
    ParseIsNormal(dest);
    EscapesFirst(p);
    JoinWalks(dest, [p.ToString()]);
    assert [dest] + [p.ToString()] == [dest, Clean(name)];
    hide Split, Join, JoinPaths, Parse, Path.ToString, Escapes, Path.Normal;
    WalkOfText(IsAbs(dest), at, p);
    LeadsOn(IsAbs(dest), at, p.parts);
  }

  lemma LeadsOn(rooted: bool, at: seq<string>, parts: seq<string>)
    requires ".." !in parts
    ensures Leads(Path(rooted, at), Path(rooted, at + parts))
  {
  }

  /** Walking the components of a clean relative path that does not go up appends them. */
  lemma WalkOfText(rooted: bool, at: seq<string>, p: Path)
    requires Path(rooted, at).Normal() && p.Normal() && !p.rooted && ".." !in p.parts
    ensures Walk(rooted, at, Components([p.ToString()])) == at + p.parts
  {
    assert [p.ToString()][1..] == [] && Components([]) == [];
    assert Components([p.ToString()]) == Split(p.ToString(), '/');
    if p.parts == [] {
      SplitOfPart(".", '/');
      assert at + [] == at;
    } else {
      RelativeText(p);
      hide Split, Path.ToString;
      NormalConcat(rooted, at, p.parts);
      WalkOfNormal(rooted, at, p.parts);
    }
  }

  lemma NormalConcat(rooted: bool, a: seq<string>, b: seq<string>)
    requires Path(rooted, a).Normal() && Path(false, b).Normal() && ".." !in b
    ensures Path(rooted, a + b).Normal()
  {
    assert forall i :: |a| <= i < |a + b| ==> (a + b)[i] == b[i - |a|] && b[i - |a|] in b;
  }
}
