/** Lexical path normalization on Unix path components. */
module LexicalPath {

  datatype Component = RootDir | CurDir | ParentDir | Normal(name: string)

  type Path = seq<Component>

  /** `file_name` of the path built so far: its last component, if that is a normal one. */
  predicate HasFileName(out: Path) {
    out != [] && out[|out| - 1].Normal?
  }

  predicate HasRoot(out: Path) {
    out != [] && out[0].RootDir?
  }

  /** What one component does to the path built so far. Pushing the root replaces everything. */
  function Push(out: Path, c: Component): Path {
    match c
    case CurDir => out
    case ParentDir => if HasFileName(out) then out[..|out| - 1] else if !HasRoot(out) then out + [ParentDir] else out
    case RootDir => [RootDir]
    case Normal(_) => out + [c]
  }

  function Built(path: Path): Path {
    if path == [] then [] else Push(Built(path[..|path| - 1]), path[|path| - 1])
  }

  function Normalized(path: Path): Path {
    if Built(path) == [] then [CurDir] else Built(path)
  }

  method NormalizeLexically(path: Path) returns (out: Path)
    ensures out == Normalized(path)
  {
    out := [];
    for i := 0 to |path|
      invariant out == Built(path[..i])
    {
      assert path[..i + 1][..i] == path[..i];
      match path[i]
      case CurDir =>
      case ParentDir =>
        if HasFileName(out) {
          out := out[..|out| - 1];
        } else if !HasRoot(out) {
          out := out + [ParentDir];
        }
      case RootDir => out := [RootDir];
      case Normal(_) => out := out + [path[i]];
    }
    assert path[..|path|] == path;
    if out == [] {
      out := [CurDir];
    }
  }

  // ---- meaning ----

  /** A place is the list of directory names that leads to it from the root. */
  type Place = seq<string>

  function Walk(at: Place, c: Component): Place {
    match c
    case RootDir => []
    case CurDir => at
    case ParentDir => if at == [] then [] else at[..|at| - 1]
    case Normal(name) => at + [name]
  }

  /** Where `path` leads from the working directory `cwd`. */
  function Resolve(cwd: Place, path: Path): Place {
    if path == [] then cwd else Walk(Resolve(cwd, path[..|path| - 1]), path[|path| - 1])
  }

  // ---- shape of the result ----

  function Ups(k: nat): Path {
    seq(k, _ => ParentDir)
  }

  function Names(names: Place): Path {
    seq(|names|, i requires 0 <= i < |names| => Normal(names[i]))
  }

  /** What the normalizer builds: a root, or some `..`, and then only names. */
  datatype Shape = Absolute(names: Place) | Relative(ups: nat, rest: Place)

  function Spell(s: Shape): Path {
    match s
    case Absolute(names) => [RootDir] + Names(names)
    case Relative(ups, rest) => Ups(ups) + Names(rest)
  }

  function PushShape(s: Shape, c: Component): Shape {
    match (s, c)
    case (_, CurDir) => s
    case (_, RootDir) => Absolute([])
    case (Absolute(names), Normal(n)) => Absolute(names + [n])
    case (Relative(ups, rest), Normal(n)) => Relative(ups, rest + [n])
    case (Absolute(names), ParentDir) => if names == [] then s else Absolute(names[..|names| - 1])
    case (Relative(ups, rest), ParentDir) => if rest == [] then Relative(ups + 1, []) else Relative(ups, rest[..|rest| - 1])
  }

  function ShapeOf(path: Path): Shape {
    if path == [] then Relative(0, []) else PushShape(ShapeOf(path[..|path| - 1]), path[|path| - 1])
  }

  lemma NamesAppend(names: Place, n: string)
    ensures Names(names + [n]) == Names(names) + [Normal(n)]
  {
  }

  lemma SpellPushAbsolute(names: Place, c: Component)
    ensures Push(Spell(Absolute(names)), c) == Spell(PushShape(Absolute(names), c))
  {
    var out := Spell(Absolute(names));
    if c.Normal? {
      NamesAppend(names, c.name);
      assert out + [c] == [RootDir] + (Names(names) + [c]);
    } else if c.ParentDir? && names != [] {
      var front := names[..|names| - 1];
      NamesAppend(front, names[|names| - 1]);
      assert names == front + [names[|names| - 1]];
      assert out[..|out| - 1] == [RootDir] + Names(front);
    }
  }

  lemma SpellPushRelative(ups: nat, rest: Place, c: Component)
    ensures Push(Spell(Relative(ups, rest)), c) == Spell(PushShape(Relative(ups, rest), c))
  {
    var out := Spell(Relative(ups, rest));
    if c.Normal? {
      NamesAppend(rest, c.name);
      assert out + [c] == Ups(ups) + (Names(rest) + [c]);
    } else if c.ParentDir? {
      if rest == [] {
        assert Names(rest) == [] && out == Ups(ups);
        assert Ups(ups + 1) == Ups(ups) + [ParentDir] && Ups(ups + 1) + Names([]) == Ups(ups + 1);
      } else {
        var front := rest[..|rest| - 1];
        NamesAppend(front, rest[|rest| - 1]);
        assert rest == front + [rest[|rest| - 1]];
        assert out[..|out| - 1] == Ups(ups) + Names(front);
      }
    }
  }

  lemma SpellPush(s: Shape, c: Component)
    ensures Push(Spell(s), c) == Spell(PushShape(s, c))
  {
    hide Push, Spell, PushShape;
    match s
    case Absolute(names) => SpellPushAbsolute(names, c);
    case Relative(ups, rest) => SpellPushRelative(ups, rest, c);
  }

  /** The result is a root followed by names, or a run of `..` followed by names. */
  lemma {:induction false} BuiltHasShape(path: Path)
    ensures Built(path) == Spell(ShapeOf(path))
  {
    if path != [] {
      BuiltHasShape(path[..|path| - 1]);
      SpellPush(ShapeOf(path[..|path| - 1]), path[|path| - 1]);
    }
  }

  /** `..` is left only as a leading run of a relative path, and `.` only as the whole path. */
  lemma OnlyLeadingParents(path: Path)
    ensures forall i, j :: 0 <= i < j < |Normalized(path)| && Normalized(path)[j].ParentDir? ==> Normalized(path)[i].ParentDir?
    ensures CurDir in Normalized(path) ==> Normalized(path) == [CurDir]
    ensures forall j :: 0 < j < |Normalized(path)| ==> !Normalized(path)[j].RootDir?
  {
    BuiltHasShape(path);
  }

  // ---- meaning preserved ----

  function LeadsTo(s: Shape, cwd: Place): Place {
    match s
    case Absolute(names) => names
    case Relative(ups, rest) => (if ups <= |cwd| then cwd[..|cwd| - ups] else []) + rest
  }

  lemma PlaceOfPush(s: Shape, c: Component, cwd: Place)
    ensures LeadsTo(PushShape(s, c), cwd) == Walk(LeadsTo(s, cwd), c)
  {
    match s
    case Absolute(_) =>
    case Relative(ups, rest) =>
      var up := if ups <= |cwd| then cwd[..|cwd| - ups] else [];
      if c.Normal? { assert up + (rest + [c.name]) == (up + rest) + [c.name]; }
      if c.ParentDir? && rest != [] { assert (up + rest)[..|up + rest| - 1] == up + rest[..|rest| - 1]; }
      if c.ParentDir? && rest == [] { assert up + rest == up; }
  }

  lemma {:induction false} ShapeLeadsThere(path: Path, cwd: Place)
    ensures Resolve(cwd, path) == LeadsTo(ShapeOf(path), cwd)
  {
    if path == [] {
      assert cwd[..|cwd|] + [] == cwd;
    } else {
      ShapeLeadsThere(path[..|path| - 1], cwd);
      PlaceOfPush(ShapeOf(path[..|path| - 1]), path[|path| - 1], cwd);
    }
  }

  lemma {:induction false} ResolveConcat(cwd: Place, a: Path, b: Path)
    ensures Resolve(cwd, a + b) == Resolve(Resolve(cwd, a), b)
  {
    if b == [] {
      assert a + b == a;
    } else {
      ResolveConcat(cwd, a, b[..|b| - 1]);
      assert (a + b)[..|a + b| - 1] == a + b[..|b| - 1];
    }
  }

  lemma {:induction false} ResolveNames(cwd: Place, names: Place)
    ensures Resolve(cwd, Names(names)) == cwd + names
  {
    if names == [] {
      assert Names(names) == [];
    } else {
      ResolveNames(cwd, names[..|names| - 1]);
      NamesAppend(names[..|names| - 1], names[|names| - 1]);
      assert names == names[..|names| - 1] + [names[|names| - 1]];
      assert Names(names)[..|names| - 1] == Names(names[..|names| - 1]);
    }
  }

  lemma {:induction false} ResolveUps(cwd: Place, k: nat)
    ensures Resolve(cwd, Ups(k)) == if k <= |cwd| then cwd[..|cwd| - k] else []
  {
    if k > 0 {
      ResolveUps(cwd, k - 1);
      assert Ups(k)[..k - 1] == Ups(k - 1);
    } else {
      assert cwd[..|cwd|] == cwd;
    }
  }

  lemma SpellLeadsThere(s: Shape, cwd: Place)
    ensures Resolve(cwd, Spell(s)) == LeadsTo(s, cwd)
  {
    match s
    case Absolute(names) =>
      ResolveConcat(cwd, [RootDir], Names(names));
      assert [RootDir][..0] == [];
      assert Resolve(cwd, [RootDir]) == [];
      ResolveNames([], names);
    case Relative(ups, rest) =>
      ResolveConcat(cwd, Ups(ups), Names(rest));
      ResolveUps(cwd, ups);
      ResolveNames(Resolve(cwd, Ups(ups)), rest);
  }

  /** From every working directory, the normalized path leads where the original does. */
  lemma NormalizationPreservesMeaning(path: Path, cwd: Place)
    ensures Resolve(cwd, Normalized(path)) == Resolve(cwd, path)
  {
    BuiltHasShape(path);
    ShapeLeadsThere(path, cwd);
    SpellLeadsThere(ShapeOf(path), cwd);
    if Built(path) == [] {
      assert [CurDir][..0] == [];
    }
  }

  // ---- canonical ----

  function Repeat(name: string, n: nat): Place {
    seq(n, _ => name)
  }

  /** Relative shapes that lead to the same place from two distinguishable deep directories are equal. */
  lemma RelativeShapesDiffer(k: nat, a: Place, m: nat, b: Place)
    requires k < m
    ensures LeadsTo(Relative(k, a), Repeat("x", m)) != LeadsTo(Relative(m, b), Repeat("x", m)) ||
            LeadsTo(Relative(k, a), Repeat("y", m)) != LeadsTo(Relative(m, b), Repeat("y", m))
  {
    var px, py := LeadsTo(Relative(k, a), Repeat("x", m)), LeadsTo(Relative(k, a), Repeat("y", m));
    assert px[0] == "x" && py[0] == "y";
    assert LeadsTo(Relative(m, b), Repeat("x", m)) == b == LeadsTo(Relative(m, b), Repeat("y", m));
  }

  ghost predicate SameEverywhere(s: Shape, t: Shape) {
    forall cwd: Place :: LeadsTo(s, cwd) == LeadsTo(t, cwd)
  }

  lemma ShapesAreCanonical(s: Shape, t: Shape)
    requires SameEverywhere(s, t)
    ensures s == t
  {
    match (s, t)
    case (Absolute(a), Absolute(b)) => assert LeadsTo(s, []) == LeadsTo(t, []);
    case (Relative(k, a), Relative(m, b)) =>
      if k < m {
        RelativeShapesDiffer(k, a, m, b);
      } else if m < k {
        RelativeShapesDiffer(m, b, k, a);
      } else {
        assert LeadsTo(s, []) == LeadsTo(t, []) && [] + a == a && [] + b == b;
      }
    case (Absolute(a), Relative(m, b)) => AbsoluteIsNotRelative(a, m, b);
    case (Relative(k, a), Absolute(b)) => AbsoluteIsNotRelative(b, k, a);
  }

  lemma AbsoluteIsNotRelative(a: Place, m: nat, b: Place)
    ensures LeadsTo(Absolute(a), Repeat("x", m + 1)) != LeadsTo(Relative(m, b), Repeat("x", m + 1)) ||
            LeadsTo(Absolute(a), Repeat("x", m)) != LeadsTo(Relative(m, b), Repeat("x", m))
  {
    assert |LeadsTo(Relative(m, b), Repeat("x", m + 1))| == 1 + |b|;
    assert |LeadsTo(Relative(m, b), Repeat("x", m))| == |b|;
  }

  ghost predicate SameMeaning(p: Path, q: Path) {
    forall cwd: Place :: Resolve(cwd, p) == Resolve(cwd, q)
  }

  /** Two paths normalize equally exactly when they lead to the same place from every working directory. */
  lemma NormalizationIsCanonical(p: Path, q: Path)
    ensures Normalized(p) == Normalized(q) <==> SameMeaning(p, q)
  {
    if Normalized(p) == Normalized(q) {
      forall cwd: Place ensures Resolve(cwd, p) == Resolve(cwd, q) {
        NormalizationPreservesMeaning(p, cwd);
        NormalizationPreservesMeaning(q, cwd);
      }
    } else if SameMeaning(p, q) {
      forall cwd: Place ensures LeadsTo(ShapeOf(p), cwd) == LeadsTo(ShapeOf(q), cwd) {
        assert Resolve(cwd, p) == Resolve(cwd, q);
        ShapeLeadsThere(p, cwd);
        ShapeLeadsThere(q, cwd);
      }
      ShapesAreCanonical(ShapeOf(p), ShapeOf(q));
      BuiltHasShape(p);
      BuiltHasShape(q);
    }
  }

  /** For absolute paths one working directory decides. */
  lemma AbsolutePathsCanonical(p: Path, q: Path, cwd: Place)
    requires HasRoot(p) && HasRoot(q)
    ensures Normalized(p) == Normalized(q) <==> Resolve(cwd, p) == Resolve(cwd, q)
  {
    NormalizationPreservesMeaning(p, cwd);
    NormalizationPreservesMeaning(q, cwd);
    RootedIsAbsolute(p);
    RootedIsAbsolute(q);
    ShapeLeadsThere(p, cwd);
    ShapeLeadsThere(q, cwd);
    BuiltHasShape(p);
    BuiltHasShape(q);
  }

  lemma {:induction false} RootedIsAbsolute(p: Path)
    requires HasRoot(p)
    ensures ShapeOf(p).Absolute?
  {
    if |p| > 1 { RootedIsAbsolute(p[..|p| - 1]); }
  }

  lemma NormalizationIsIdempotent(p: Path)
    ensures Normalized(Normalized(p)) == Normalized(p)
  {
    forall cwd: Place ensures Resolve(cwd, Normalized(p)) == Resolve(cwd, p) {
      NormalizationPreservesMeaning(p, cwd);
    }
    NormalizationIsCanonical(Normalized(p), p);
  }

  // ---- path identity ----

  /** The uninstaller's absolute form of a path: the working directory first, when the path is relative. */
  function AbsoluteLexical(cwd: Place, path: Path): Path {
    Normalized(if HasRoot(path) then path else [RootDir] + Names(cwd) + path)
  }

  lemma MadeAbsolute(cwd: Place, path: Path, from: Place)
    requires !HasRoot(path)
    ensures Resolve(from, [RootDir] + Names(cwd) + path) == Resolve(cwd, path)
  {
    ResolveConcat(from, [RootDir] + Names(cwd), path);
    ResolveConcat(from, [RootDir], Names(cwd));
    assert [RootDir][..0] == [];
    assert Resolve(from, [RootDir]) == [];
    ResolveNames([], cwd);
    assert [] + cwd == cwd;
  }

  /** Two paths get the same absolute form exactly when they lead to the same place from the working directory. */
  lemma SameFormIffSamePlace(cwd: Place, p: Path, q: Path)
    ensures AbsoluteLexical(cwd, p) == AbsoluteLexical(cwd, q) <==> Resolve(cwd, p) == Resolve(cwd, q)
  {
    var a := if HasRoot(p) then p else [RootDir] + Names(cwd) + p;
    var b := if HasRoot(q) then q else [RootDir] + Names(cwd) + q;
    if !HasRoot(p) { MadeAbsolute(cwd, p, cwd); }
    if !HasRoot(q) { MadeAbsolute(cwd, q, cwd); }
    AbsolutePathsCanonical(a, b, cwd);
  }
}
