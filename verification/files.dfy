/** util/files/files.go: `RelativePath`, which resolves a path against the
    location of another, and the lexical path operations of Go's
    `path/filepath` it is built from, with `/` as the separator. Nothing
    here touches a file system. */
module Files {
  import opened Strings

  /** One step of `filepath.Clean` over the elements kept so far: empty
      and `.` elements vanish, `..` removes the element before it, and a
      `..` with nothing to remove is kept on a relative path and dropped on
      a rooted one. */
  function Step(kept: seq<string>, e: string, rooted: bool): seq<string> {
    if e == "" || e == "." then kept
    else if e == ".." then
      if |kept| > 0 && kept[|kept| - 1] != ".." then kept[..|kept| - 1]
      else if rooted then kept
      else kept + [".."]
    else kept + [e]
  }

  /** The elements left after processing `parts` from left to right. */
  function Reduce(kept: seq<string>, parts: seq<string>, rooted: bool): seq<string>
    decreases |parts|
  {
    if parts == [] then kept else Reduce(Step(kept, parts[0], rooted), parts[1..], rooted)
  }

  /** The shape of the elements of a clean path: none is empty, `.`, or
      contains `/`, and `..` occurs only at the front of a relative path. */
  predicate Normal(kept: seq<string>, rooted: bool) {
    (forall i :: 0 <= i < |kept| ==> kept[i] != "" && kept[i] != "." && '/' !in kept[i])
    && (forall i, j :: 0 <= i < j < |kept| && kept[j] == ".." ==> kept[i] == "..")
    && (rooted ==> forall i :: 0 <= i < |kept| ==> kept[i] != "..")
  }

  /** The elements written back as a path: a leading `/` when rooted, and
      `.` for nothing at all. */
  function Assemble(kept: seq<string>, rooted: bool): string {
    var s := Join(kept, "/");
    if rooted then "/" + s else if s == "" then "." else s
  }

  /** `filepath.Clean`: the shortest lexically equivalent path. */
  function Clean(path: string): (r: string)
    ensures r != ""
  {
    var rooted := HasPrefix(path, "/");
    Assemble(Reduce([], Split(path, '/'), rooted), rooted)
  }

  /** `filepath.Dir`: everything up to the last `/`, cleaned. */
  function Dir(path: string): (r: string)
    ensures r != ""
  {
    Clean(path[..LastSlash(path)])
  }

  /** The length of the text up to and including the last `/`, or `0`. */
  function LastSlash(path: string): (n: nat)
    ensures n <= |path|
    ensures n > 0 ==> path[n - 1] == '/'
    ensures forall i :: n <= i < |path| ==> path[i] != '/'
  {
    if path == "" then 0
    else if path[|path| - 1] == '/' then |path|
    else LastSlash(path[..|path| - 1])
  }

  /** `filepath.Join(a, b)`: the non-empty elements joined with `/` and
      cleaned; the empty string when both are empty. */
  function Join2(a: string, b: string): (r: string)
    ensures a == "" && b == "" ==> r == ""
    ensures a != "" ==> r == Clean(a + "/" + b)
    ensures a == "" && b != "" ==> r == Clean(b)
  {
    if a != "" then Clean(a + "/" + b)
    else if b != "" then Clean(b)
    else ""
  }

  /** `RelativePath(path1, path2)`: an absolute or home-relative `path2`
      as it is; otherwise `path2` resolved against `path1` when that ends
      in `/`, or else against the directory holding `path1`. */
  function RelativePath(path1: string, path2: string): (r: string)
    ensures HasPrefix(path2, "/") || HasPrefix(path2, "~/") ==> r == path2
    ensures !(HasPrefix(path2, "/") || HasPrefix(path2, "~/")) ==>
              r == Clean((if HasSuffix(path1, "/") then path1 else Dir(path1)) + "/" + path2)
  {
    if HasPrefix(path2, "/") || HasPrefix(path2, "~/") then path2
    else
      var base := if HasSuffix(path1, "/") then path1 else Dir(path1);
      Join2(base, path2)
  }

  /** A path `Clean` leaves as it is. */
  predicate IsClean(path: string) {
    Clean(path) == path
  }

  lemma {:induction false} IndexOfAfter(s: string, t: string, c: char)
    requires c !in s
    ensures IndexOf(s + [c] + t, c) == |s|
    decreases |s|
  {
    if s != [] {
      IndexOfAfter(s[1..], t, c);
      assert (s + [c] + t)[1..] == s[1..] + [c] + t;
    }
  }

  /** Splitting joined elements that hold no `/` gives them back. */
  lemma {:induction false} SplitJoin(kept: seq<string>)
    requires |kept| >= 1
    requires forall i :: 0 <= i < |kept| ==> '/' !in kept[i]
    ensures Split(Join(kept, "/"), '/') == kept
  {
    if |kept| == 1 {
      assert IndexOf(kept[0], '/') == |kept[0]|;
    } else {
      var rest := Join(kept[1..], "/");
      var j := kept[0] + "/" + rest;
      IndexOfAfter(kept[0], rest, '/');
      assert j[|kept[0]| + 1..] == rest;
      assert j[..|kept[0]|] == kept[0];
      SplitJoin(kept[1..]);
      assert kept == [kept[0]] + kept[1..];
    }
  }

  /** Elements that are already in normal shape pass through `Reduce`
      unchanged. */
  lemma {:induction false} ReduceOfNormal(kept: seq<string>, parts: seq<string>, rooted: bool)
    requires Normal(kept + parts, rooted)
    ensures Reduce(kept, parts, rooted) == kept + parts
    decreases |parts|
  {
    if parts != [] {
      var e := parts[0];
      assert (kept + parts)[|kept|] == e;
      if e == ".." {
        assert !rooted;
        assert forall i :: 0 <= i < |kept| ==> kept[i] == (kept + parts)[i];
      }
      assert Step(kept, e, rooted) == kept + [e];
      assert kept + parts == (kept + [e]) + parts[1..];
      ReduceOfNormal(kept + [e], parts[1..], rooted);
    }
  }

  /** `Reduce` keeps the elements in normal shape. */
  lemma {:induction false} ReduceIsNormal(kept: seq<string>, parts: seq<string>, rooted: bool)
    requires Normal(kept, rooted)
    requires forall i :: 0 <= i < |parts| ==> '/' !in parts[i]
    ensures Normal(Reduce(kept, parts, rooted), rooted)
    decreases |parts|
  {
    if parts != [] {
      var next := Step(kept, parts[0], rooted);
      assert Normal(next, rooted) by {
        var e := parts[0];
        if e == ".." && |kept| > 0 && kept[|kept| - 1] != ".." {
          assert forall i :: 0 <= i < |next| ==> next[i] == kept[i];
        } else if e == ".." && !rooted {
          assert forall i :: 0 <= i < |kept| ==> kept[i] == "..";
        } else if e != "" && e != "." && e != ".." {
          assert forall i :: 0 <= i < |kept| ==> next[i] == kept[i];
        }
      }
      ReduceIsNormal(next, parts[1..], rooted);
    }
  }

  /** The cleaned elements of a path. */
  function CleanElements(path: string): (kept: seq<string>)
    ensures Normal(kept, HasPrefix(path, "/"))
  {
    var parts := Split(path, '/');
    ReduceIsNormal([], parts, HasPrefix(path, "/"));
    Reduce([], parts, HasPrefix(path, "/"))
  }

  /** A rooted path splits into an empty first element and the rest. */
  lemma SplitRooted(j: string)
    ensures HasPrefix("/" + j, "/")
    ensures Split("/" + j, '/') == [""] + Split(j, '/')
  {
    var c := "/" + j;
    IndexOfAfter("", j, '/');
    assert [] + ['/'] + j == c;
    assert c[1..] == j;
  }

  /** The elements of a path written back by `Assemble` are recovered by
      `Clean`. */
  lemma CleanOfAssemble(kept: seq<string>, rooted: bool)
    requires Normal(kept, rooted)
    ensures Clean(Assemble(kept, rooted)) == Assemble(kept, rooted)
  {
    var j := Join(kept, "/");
    var c := Assemble(kept, rooted);
    if kept != [] {
      SplitJoin(kept);
      ReduceOfNormal([], kept, rooted);
      assert [] + kept == kept;
    }
    if rooted {
      SplitRooted(j);
      if kept == [] {
        assert Split(j, '/') == [""];
      }
    } else if kept == [] {
      assert c == ".";
      assert Split(c, '/') == ["."];
    } else {
      JoinHead(kept);
      assert !HasPrefix(c, "/");
    }
  }

  /** A join of elements starts with the first of them. */
  lemma {:induction false} JoinHead(kept: seq<string>)
    requires |kept| >= 1 && kept[0] != ""
    ensures Join(kept, "/") != "" && Join(kept, "/")[0] == kept[0][0]
  {
  }

  /** Cleaning is idempotent: the result of `Clean` is clean. */
  lemma CleanIsIdempotent(path: string)
    ensures IsClean(Clean(path))
  {
    CleanOfAssemble(CleanElements(path), HasPrefix(path, "/"));
  }

  /** What `RelativePath` returns for a relative `path2` is a clean path,
      so resolving it once more against the same base changes nothing. */
  lemma RelativePathIsClean(path1: string, path2: string)
    requires !HasPrefix(path2, "/") && !HasPrefix(path2, "~/")
    ensures IsClean(RelativePath(path1, path2))
  {
    var base := if HasSuffix(path1, "/") then path1 else Dir(path1);
    CleanIsIdempotent(base + "/" + path2);
  }

  /** Splitting at the first `/`. */
  lemma SplitAt(a: string, b: string)
    requires '/' !in a
    ensures Split(a + "/" + b, '/') == [a] + Split(b, '/')
  {
    IndexOfAfter(a, b, '/');
    assert (a + "/" + b)[|a| + 1..] == b;
    assert (a + "/" + b)[..|a|] == a;
  }

  /** A text without `/` is one element. */
  lemma SplitNone(a: string)
    requires '/' !in a
    ensures Split(a, '/') == [a]
  {
    assert IndexOf(a, '/') == |a|;
  }

  /** The last `/` of `a + "/" + b` when `b` holds none. */
  lemma {:induction false} LastSlashOf(a: string, b: string)
    requires '/' !in b
    ensures LastSlash(a + "/" + b) == |a| + 1
    decreases |b|
  {
    if b != [] {
      assert (a + "/" + b)[..|a + "/" + b| - 1] == a + "/" + b[..|b| - 1];
      LastSlashOf(a, b[..|b| - 1]);
    } else {
      assert a + "/" + b == a + "/";
    }
  }

  /** A path element with no special meaning to `Clean`. */
  predicate Plain(e: string) {
    e != "" && e != "." && e != ".." && '/' !in e
  }

  /** `Reduce` takes one element at a time. */
  lemma ReduceCons(kept: seq<string>, e: string, rest: seq<string>, rooted: bool)
    ensures Reduce(kept, [e] + rest, rooted) == Reduce(Step(kept, e, rooted), rest, rooted)
  {
    assert ([e] + rest)[1..] == rest;
  }

  /** Two plain elements joined are already clean. */
  lemma CleanOfTwo(a: string, b: string)
    requires Plain(a) && Plain(b)
    ensures Clean(a + "/" + b) == a + "/" + b
  {
    var p := a + "/" + b;
    SplitAt(a, b);
    SplitNone(b);
    assert !HasPrefix(p, "/") by { assert p[0] == a[0]; }
    assert Split(p, '/') == [a, b];
    assert [] + [a, b] == [a, b];
    assert Normal([a, b], false);
    ReduceOfNormal([], [a, b], false);
    assert Reduce([], Split(p, '/'), false) == [a, b];
    assert [a, b][1..] == [b];
    assert Join([a, b], "/") == p;
    assert Assemble([a, b], false) == p;
  }

  /** The directory of `a/f` is `a`. */
  lemma DirOfPlain(a: string, f: string)
    requires Plain(a) && Plain(f)
    ensures Dir(a + "/" + f) == a
  {
    LastSlashOf(a, f);
    var d := (a + "/" + f)[..|a| + 1];
    assert d == a + "/" + "";
    SplitAt(a, "");
    SplitNone("");
    assert Split(d, '/') == [a, ""];
    assert !HasPrefix(d, "/") by { assert d[0] == a[0]; }
    assert [a, ""] == [a] + [""];
    ReduceCons([], a, [""], false);
    assert [""] == [""] + [];
    ReduceCons([a], "", [], false);
  }

  /** A plain name is resolved beside the file `a/f` it is named in. */
  lemma Sibling(a: string, f: string, x: string)
    requires Plain(a) && Plain(f) && Plain(x)
    ensures RelativePath(a + "/" + f, x) == a + "/" + x
  {
    assert !HasPrefix(x, "/") by { assert x[0] != '/'; }
    assert !HasPrefix(x, "~/") by { if |x| >= 2 { assert x[1] != '/'; } }
    var path1 := a + "/" + f;
    assert !HasSuffix(path1, "/") by { assert path1[|path1| - 1] == f[|f| - 1]; }
    DirOfPlain(a, f);
    CleanOfTwo(a, x);
  }

  lemma PlainExamples()
    ensures Plain("x.yaml") && Plain("etc") && Plain("app")
  {
    assert "x.yaml"[0] == 'x' && "x.yaml"[1] == '.';
    assert "etc"[0] == 'e' && "app"[0] == 'a';
  }

  /** `Join` puts the separator after the first element. */
  lemma JoinCons(e: string, rest: seq<string>)
    requires rest != []
    ensures Join([e] + rest, "/") == e + "/" + Join(rest, "/")
  {
    assert ([e] + rest)[1..] == rest;
  }

  lemma JoinOfClimb(a: string, b: string, c: string)
    ensures Join(["", a, b, "", "..", c], "/") == "/" + a + "/" + b + "/" + "/" + "../" + c
  {
    JoinCons("..", [c]);
    JoinCons("", ["..", c]);
    JoinCons(b, ["", "..", c]);
    JoinCons(a, [b, "", "..", c]);
    JoinCons("", [a, b, "", "..", c]);
    assert ["", a, b, "", "..", c] == [""] + ([a] + ([b] + ([""] + ([".."] + [c]))));
  }

  lemma SplitOfClimb(a: string, b: string, c: string)
    requires Plain(a) && Plain(b) && Plain(c)
    ensures Split("/" + a + "/" + b + "/" + "/" + "../" + c, '/') == ["", a, b, "", "..", c]
  {
    var parts := ["", a, b, "", "..", c];
    JoinOfClimb(a, b, c);
    assert forall i :: 0 <= i < |parts| ==> '/' !in parts[i];
    SplitJoin(parts);
  }

  lemma ReduceOfClimb(a: string, b: string, c: string)
    requires Plain(a) && Plain(b) && Plain(c)
    ensures Reduce([], ["", a, b, "", "..", c], true) == [a, c]
  {
    assert ["", a, b, "", "..", c] == [""] + [a, b, "", "..", c];
    ReduceCons([], "", [a, b, "", "..", c], true);
    assert [a, b, "", "..", c] == [a] + [b, "", "..", c];
    ReduceCons([], a, [b, "", "..", c], true);
    assert Step([], a, true) == [a];
    assert [b, "", "..", c] == [b] + ["", "..", c];
    ReduceCons([a], b, ["", "..", c], true);
    assert Step([a], b, true) == [a, b];
    assert ["", "..", c] == [""] + ["..", c];
    ReduceCons([a, b], "", ["..", c], true);
    assert ["..", c] == [".."] + [c];
    ReduceCons([a, b], "..", [c], true);
    assert Step([a, b], "..", true) == [a];
    assert [c] == [c] + [];
    ReduceCons([a], c, [], true);
    assert Step([a], c, true) == [a, c];
  }

  lemma CleanOfClimb(a: string, b: string, c: string)
    requires Plain(a) && Plain(b) && Plain(c)
    ensures Clean("/" + a + "/" + b + "/" + "/" + "../" + c) == "/" + a + "/" + c
  {
    var p := "/" + a + "/" + b + "/" + "/" + "../" + c;
    SplitOfClimb(a, b, c);
    assert HasPrefix(p, "/") by { assert p[..1] == "/"; }
    ReduceOfClimb(a, b, c);
    assert [a, c][1..] == [c];
    assert Join([a, c], "/") == a + "/" + c;
  }

  /** `../c` against the directory `/a/b/` climbs to `/a/c`. */
  lemma ClimbOut(a: string, b: string, c: string)
    requires Plain(a) && Plain(b) && Plain(c)
    ensures RelativePath("/" + a + "/" + b + "/", "../" + c) == "/" + a + "/" + c
  {
    var path2 := "../" + c;
    assert path2[..1][0] == '.' && path2[..2][0] == '.';
    var path1 := "/" + a + "/" + b + "/";
    assert HasSuffix(path1, "/") by { assert path1[|path1| - 1..] == "/"; }
    assert path1 + "/" + path2 == "/" + a + "/" + b + "/" + "/" + "../" + c;
    CleanOfClimb(a, b, c);
  }

  /** `..` climbs out of a directory named with a trailing `/`. */
  lemma ParentExample()
    ensures RelativePath("/etc/app/", "../x.yaml") == "/etc/x.yaml"
  {
    PlainExamples();
    ClimbOut("etc", "app", "x.yaml");
    assert "/" + "etc" + "/" + "app" + "/" == "/etc/app/";
    assert "../" + "x.yaml" == "../x.yaml";
    assert "/" + "etc" + "/" + "x.yaml" == "/etc/x.yaml";
  }

  /** Absolute and home-relative paths are never resolved. */
  lemma AbsoluteExample()
    ensures RelativePath("config/app.yaml", "/etc/x.yaml") == "/etc/x.yaml"
    ensures RelativePath("config/app.yaml", "~/x.yaml") == "~/x.yaml"
  {
  }
}
