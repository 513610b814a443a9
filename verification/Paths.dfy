/** Absolute paths as component lists, and the workspace-root test. */
module Paths {
  import opened Common

  /** A cleaned absolute path: its components from the file-system root. */
  type Path = seq<string>

  datatype PathError = EmptyPath | OutsideWorkspace

  /** A component `filepath.Clean` can leave in an absolute path. */
  predicate Plain(c: string) { c != "" && c != "." && c != ".." && '/' !in c }

  predicate Clean(p: Path) { forall c <- p :: Plain(c) }

  /** `strings.Split(raw, "/")`. */
  function Split(raw: string): (parts: seq<string>)
    ensures parts != [] && forall c <- parts :: '/' !in c
  {
    if raw == "" then [""]
    else
      var rest := Split(raw[1..]);
      if raw[0] == '/' then [""] + rest else [[raw[0]] + rest[0]] + rest[1..]
  }

  /** Lexical cleaning of a rooted path: "" and "." vanish, ".." drops the component
      before it and stays at the root. */
  function CleanFrom(done: Path, todo: seq<string>): (p: Path)
    requires Clean(done) && forall c <- todo :: '/' !in c
    ensures Clean(p)
    decreases |todo|
  {
    if todo == [] then done
    else if todo[0] == "" || todo[0] == "." then CleanFrom(done, todo[1..])
    else if todo[0] == ".." then CleanFrom(if done == [] then [] else done[..|done| - 1], todo[1..])
    else CleanFrom(done + [todo[0]], todo[1..])
  }

  /** `filepath.Abs` in working directory `cwd`. */
  function Abs(cwd: Path, raw: string): (p: Path)
    requires Clean(cwd)
    ensures Clean(p)
  {
    CleanFrom(if raw != "" && raw[0] == '/' then [] else cwd, Split(raw))
  }

  function Join(parts: seq<string>): string {
    if parts == [] then ""
    else if |parts| == 1 then parts[0]
    else parts[0] + "/" + Join(parts[1..])
  }

  lemma {:induction false} SplitFirst(c: string, rest: string)
    requires '/' !in c
    ensures Split(c) == [c] && Split(c + "/" + rest) == [c] + Split(rest)
  {
    var whole := c + "/" + rest;
    if c == "" {
      assert whole[1..] == rest;
    } else {
      SplitFirst(c[1..], rest);
      assert whole[1..] == c[1..] + "/" + rest && c == [c[0]] + c[1..];
    }
  }

  /** Splitting undoes joining. */
  lemma {:induction false} SplitJoined(parts: seq<string>)
    requires parts != [] && forall c <- parts :: '/' !in c
    ensures Split(Join(parts)) == parts
  {
    if |parts| == 1 {
      SplitFirst(parts[0], "");
    } else {
      SplitJoined(parts[1..]);
      SplitFirst(parts[0], Join(parts[1..]));
      assert parts == [parts[0]] + parts[1..];
    }
  }

  lemma {:induction false} CleanFromPlain(done: Path, todo: Path)
    requires Clean(done) && Clean(todo)
    ensures CleanFrom(done, todo) == done + todo
    decreases |todo|
  {
    if todo == [] {
      assert done + todo == done;
    } else {
      assert Plain(todo[0]);
      CleanFromPlain(done + [todo[0]], todo[1..]);
      assert done + [todo[0]] + todo[1..] == done + todo;
    }
  }

  /** A cleaned path, written out from the root, names itself in any directory. */
  lemma AbsOfRooted(cwd: Path, p: Path)
    requires Clean(cwd) && Clean(p) && p != []
    ensures Abs(cwd, "/" + Join(p)) == p
  {
    SplitFirst("", Join(p));
    assert "" + "/" + Join(p) == "/" + Join(p);
    SplitJoined(p);
    CleanFromPlain([], p);
    assert ([""] + p)[1..] == p;
  }

  /** Every string is the join of what it splits into. */
  lemma {:induction false} JoinOfSplit(raw: string)
    ensures Join(Split(raw)) == raw
  {
    if raw != "" {
      JoinOfSplit(raw[1..]);
      var rest := Split(raw[1..]);
      if raw[0] == '/' {
        assert Join([""] + rest) == "" + "/" + Join(rest) by { assert ([""] + rest)[1..] == rest; }
        assert raw == "/" + raw[1..];
      } else {
        JoinHead(raw[0], rest);
        assert raw == [raw[0]] + raw[1..];
      }
    }
  }

  lemma {:induction false} JoinHead(c: char, rest: seq<string>)
    requires rest != []
    ensures Join([[c] + rest[0]] + rest[1..]) == [c] + Join(rest)
  {
    var whole, tail := [[c] + rest[0]] + rest[1..], rest[1..];
    assert whole[1..] == tail && whole[0] == [c] + rest[0];
    if |rest| > 1 {
      assert [c] + rest[0] + "/" + Join(tail) == [c] + (rest[0] + "/" + Join(tail));
    }
  }

  lemma {:induction false} CleanFromConcat(done: Path, a: seq<string>, b: seq<string>)
    requires Clean(done) && forall c <- a + b :: '/' !in c
    ensures (forall c <- a :: '/' !in c) && (forall c <- b :: '/' !in c)
    ensures CleanFrom(done, a + b) == CleanFrom(CleanFrom(done, a), b)
    decreases |a|
  {
    forall c | c in a || c in b ensures '/' !in c { assert c in a + b; }
    if a == [] {
      assert a + b == b;
    } else {
      assert (a + b)[1..] == a[1..] + b;
      var next := if a[0] == "" || a[0] == "." then done
                  else if a[0] == ".." then (if done == [] then [] else done[..|done| - 1])
                  else done + [a[0]];
      CleanFromConcat(next, a[1..], b);
    }
  }

  /** What cleaning takes out of a path, anywhere in it: empty components and ".", a
      component with the ".." after it, and ".." at the root. */
  lemma CleaningRules(a: seq<string>, b: seq<string>, c: string)
    requires (forall x <- a + b :: '/' !in x) && Plain(c)
    ensures (forall x <- a :: '/' !in x) && (forall x <- b :: '/' !in x)
    ensures CleanFrom([], a + [""] + b) == CleanFrom([], a + b) == CleanFrom([], a + ["."] + b)
    ensures CleanFrom([], a + [c, ".."] + b) == CleanFrom([], a + b)
    ensures CleanFrom([], [".."] + b) == CleanFrom([], b)
  {
    CleanFromConcat([], a, b);
    var done := CleanFrom([], a);
    forall mid | mid in {[""], ["."], [c, ".."]}
      ensures (forall x <- a + mid + b :: '/' !in x) && CleanFrom([], a + mid + b) == CleanFrom(done, b)
    {
      CleanFromConcat([], a + mid, b);
      CleanFromConcat([], a, mid);
      OneRule(done, mid, c);
    }
    assert ([".."] + b)[1..] == b;
  }

  lemma OneRule(done: Path, mid: seq<string>, c: string)
    requires Clean(done) && Plain(c) && mid in {[""], ["."], [c, ".."]}
    ensures CleanFrom(done, mid) == done
  {
    assert [""][1..] == [] && ["."][1..] == [] && [c, ".."][1..] == [".."] && [".."][1..] == [];
    assert (done + [c])[..|done|] == done;
  }

  /** A path that does not start at the root is cleaned from the working directory on. */
  lemma AbsOfRelative(cwd: Path, parts: seq<string>)
    requires Clean(cwd) && parts != [] && parts[0] != "" && forall c <- parts :: '/' !in c
    ensures Abs(cwd, Join(parts)) == CleanFrom(cwd, parts)
    ensures Clean(parts) ==> Abs(cwd, Join(parts)) == cwd + parts
  {
    SplitJoined(parts);
    assert Join(parts) != "" && Join(parts)[0] == parts[0][0];
    if Clean(parts) { CleanFromPlain(cwd, parts); }
  }

  function Ups(n: nat): seq<string> { seq(n, _ => "..") }

  /** Components of `filepath.Rel`: up past what is left of the base, then down. */
  function RelComponents(base: Path, target: Path): seq<string> {
    if base != [] && target != [] && base[0] == target[0] then RelComponents(base[1..], target[1..])
    else Ups(|base|) + target
  }

  function Rel(base: Path, target: Path): string {
    if base == target then "." else Join(RelComponents(base, target))
  }

  function EnsureUnderRoot(root: Path, cwd: Path, target: string): Result<Path, PathError>
    requires Clean(cwd)
  {
    if target == "" then Failure(EmptyPath) else
      var path := Abs(cwd, target);
      var rel := Rel(root, path);
      if rel == "." then Success(path)
      else if rel == ".." || "../" <= rel then Failure(OutsideWorkspace)
      else Success(path)
  }

  lemma {:induction false} RelOfInside(base: Path, target: Path)
    requires base <= target
    ensures RelComponents(base, target) == target[|base|..]
  {
    if base != [] {
      RelOfInside(base[1..], target[1..]);
    } else {
      assert Ups(0) + target == target;
    }
  }

  lemma PrefixOfTails(base: Path, target: Path)
    requires base != [] && target != [] && base[0] == target[0]
    ensures base <= target <==> base[1..] <= target[1..]
  {
    assert base == [base[0]] + base[1..] && target == [target[0]] + target[1..];
  }

  lemma {:induction false} RelOfOutside(base: Path, target: Path)
    requires !(base <= target)
    ensures RelComponents(base, target) != [] && RelComponents(base, target)[0] == ".."
  {
    if base != [] && target != [] && base[0] == target[0] {
      PrefixOfTails(base, target);
      RelOfOutside(base[1..], target[1..]);
    }
  }

  /** The string test looks at the first component only, and looks at all of it. */
  lemma FirstComponentDecides(parts: seq<string>)
    requires parts != [] && '/' !in parts[0]
    ensures (Join(parts) == ".." || "../" <= Join(parts)) <==> parts[0] == ".."
  {
    var first, j := parts[0], Join(parts);
    if |parts| > 1 {
      assert j[..|first|] == first && j[|first|] == '/';
    }
    assert j == ".." ==> |j| == 2;
    assert "../" <= j ==> j[0] == '.' && j[1] == '.' && j[2] == '/';
    assert |first| > 2 && |j| > 2 ==> j[2] == first[2];
  }

  /** The root test accepts exactly the targets whose cleaned components have the
      root's as a prefix. */
  lemma UnderRootExactly(root: Path, cwd: Path, target: string)
    requires Clean(root) && Clean(cwd)
    ensures EnsureUnderRoot(root, cwd, target)
         == if target == "" then Failure(EmptyPath)
            else if root <= Abs(cwd, target) then Success(Abs(cwd, target))
            else Failure(OutsideWorkspace)
  {
    hide Abs, Join, Split, CleanFrom;
    if target != "" {
      var path := Abs(cwd, target);
      if root != path {
        var parts := RelComponents(root, path);
        if root <= path {
          RelOfInside(root, path);
          assert parts[0] == path[|root|] && Plain(path[|root|]);
          FirstComponentDecides(parts);
        } else {
          RelOfOutside(root, path);
          FirstComponentDecides(parts);
          if Join(parts) == "." { NotJustADot(parts); }
        }
      }
    }
  }

  lemma NotJustADot(parts: seq<string>)
    requires parts != [] && parts[0] == ".."
    ensures Join(parts) != "."
  {
  }

  /** A component that merely starts with ".." is an ordinary one, and what lies below it
      in the root is inside. */
  lemma DotDotPrefixIsInside(root: Path, cwd: Path, target: string, c: string)
    requires Clean(root) && Clean(cwd) && target != "" && ".." <= c && Plain(c)
    requires root + [c] <= Abs(cwd, target)
    ensures EnsureUnderRoot(root, cwd, target) == Success(Abs(cwd, target))
  {
    UnderRootExactly(root, cwd, target);
    assert root <= root + [c];
  }
}
