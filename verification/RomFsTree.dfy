/** What paths mean in the directory tree: joining paths, going back up, and full paths. */
module RomFsTree {
  import opened RomFs
  import opened RomFsPath

  /** The directory a path leads to from `dir`, the path being one without a device. */
  function PathTo(im: Image, dir: Offset, path: string, isDir: bool): Outcome {
    Fold(im, dir, Components(path), isDir)
  }

  function Then(first: Outcome, im: Image, path: string, isDir: bool): Outcome {
    if first.Fail? then first else PathTo(im, first.dir, path, isDir)
  }

  lemma {:induction false} FoldConcat(im: Image, dir: Offset, p: seq<string>, q: seq<string>, isDir: bool)
    requires |p| > 0 && |q| > 0
    ensures Fold(im, dir, p + q, isDir) ==
            (var first := Fold(im, dir, p + [""], true);
             if first.Fail? then first else Fold(im, first.dir, q, isDir))
    decreases |p|
  {
    assert (p + q)[1..] == p[1..] + q && (p + [""])[1..] == p[1..] + [""];
    var step := SlashStep(im, dir, p[0]);
    if |p| == 1 {
      assert p + q == [p[0]] + q && p[1..] + q == q && p[1..] + [""] == [""];
    } else if step.At? {
      FoldConcat(im, step.dir, p[1..], q, isDir);
    }
  }

  lemma Regroup(head: string, rest: string, q: string)
    ensures head + "/" + rest + "/" + q == head + "/" + (rest + "/" + q)
  {
  }

  lemma {:induction false} ComponentsConcat(p: string, q: string)
    ensures Components(p + "/" + q) == Components(p) + Components(q)
    decreases |p|
  {
    var i := FirstAt(p, '/');
    var head := p[..i];
    assert '/' !in head;
    if i == |p| {
      assert p == head;
      FirstPiece(p, q);
    } else {
      var rest := p[i + 1..];
      assert p == head + "/" + rest;
      FirstPiece(head, rest);
      PrependPiece(head, rest, q);
    }
  }

  lemma PrependPiece(head: string, rest: string, q: string)
    requires '/' !in head
    ensures Components(head + "/" + rest + "/" + q) == [head] + Components(rest) + Components(q)
    decreases |head| + 1 + |rest|, 0
  {
    ComponentsConcat(rest, q);
    Regroup(head, rest, q);
    FirstPiece(head, rest + "/" + q);
  }

  /** Walking p/q is walking p/ and from there q. */
  lemma PathConcat(im: Image, dir: Offset, p: string, q: string, isDir: bool)
    ensures PathTo(im, dir, p + "/" + q, isDir) == Then(PathTo(im, dir, p + "/", true), im, q, isDir)
  {
    ComponentsConcat(p, q);
    ComponentsConcat(p, "");
    assert p + "/" + "" == p + "/";
    FirstPiece("", "");
    FoldConcat(im, dir, Components(p), Components(q), isDir);
  }

  /** A closing '/' changes nothing for a last component that is not empty nor too long. */
  lemma {:induction false} ClosingSlash(im: Image, dir: Offset, pieces: seq<string>)
    requires |pieces| > 0
    ensures var last := pieces[|pieces| - 1];
            last != "" && |last| <= im.pathMax ==> Fold(im, dir, pieces + [""], true) == Fold(im, dir, pieces, true)
    decreases |pieces|
  {
    assert (pieces + [""])[1..] == pieces[1..] + [""];
    var step := SlashStep(im, dir, pieces[0]);
    if |pieces| == 1 {
      assert pieces[1..] + [""] == [""];
    } else if step.At? {
      ClosingSlash(im, step.dir, pieces[1..]);
    }
  }

  lemma AfterDeviceConcat(p: string, r: string)
    requires ':' !in r
    ensures AfterDevice(p + r) == AfterDevice(p) + r
  {
    var i := FirstAt(p, ':');
    assert FirstAt(p + r, ':') == if i < |p| then i else |p + r| by {
      ColonBefore(p, r);
    }
    if i < |p| {
      assert (p + r)[i + 1..] == p[i + 1..] + r;
    }
  }

  lemma {:induction false} ColonBefore(p: string, r: string)
    requires ':' !in r
    ensures FirstAt(p + r, ':') == if FirstAt(p, ':') < |p| then FirstAt(p, ':') else |p + r|
  {
    var i, j := FirstAt(p, ':'), FirstAt(p + r, ':');
    assert j < |p + r| ==> (p + r)[j] == ':';
    assert forall k :: 0 <= k < |p| ==> (p + r)[k] == p[k];
    assert forall k :: |p| <= k < |p + r| ==> (p + r)[k] == r[k - |p|];
  }

  lemma ColonAfter(device: string, r: string)
    requires ':' !in device
    ensures FirstAt(device + ":" + r, ':') == |device|
  {
    var path := device + ":" + r;
    assert path[|device|] == ':';
    assert forall k :: 0 <= k < |device| ==> path[k] == device[k];
  }

  /** What comes after the first ':' is what counts, whatever the device is called; a path
      without ':' counts whole. */
  lemma DeviceCutOff(device: string, r: string)
    requires ':' !in device
    ensures AfterDevice(device + ":" + r) == r
    ensures AfterDevice(device) == device
  {
    ColonAfter(device, r);
    assert (device + ":" + r)[|device| + 1..] == r;
  }

  /** A path behind a device starts at the root if it starts with '/', else at the current
      directory; with nothing behind it, or on its own, the empty path is malformed. */
  lemma DevicePath(im: Image, cwd: Offset, device: string, r: string, isDir: bool)
    requires ':' !in device
    ensures Resolve(im, cwd, device + ":/" + r, isDir) == PathTo(im, ROOT, r, isDir)
    ensures r != "" && r[0] != '/' ==> Resolve(im, cwd, device + ":" + r, isDir) == PathTo(im, cwd, r, isDir)
    ensures Resolve(im, cwd, device + ":", isDir) == Resolve(im, cwd, "", isDir) == Fail(EILSEQ)
  {
    DeviceCutOff(device, "/" + r);
    assert device + ":/" + r == device + ":" + ("/" + r) && ("/" + r)[1..] == r;
    DeviceCutOff(device, r);
    DeviceCutOff(device, "");
    assert device + ":" + "" == device + ":";
    DeviceCutOff("", "");
  }

  lemma StartConcat(im: Image, cwd: Offset, a: string, q: string, isDir: bool)
    requires q != "" && q[0] != '/'
    ensures var there := FromStart(im, cwd, a + "/", true);
            FromStart(im, cwd, a + "/" + q, isDir) == if there.Fail? then there else FromStart(im, there.dir, q, isDir)
  {
    if a == "" {
      assert (a + "/" + q)[1..] == q && (a + "/")[1..] == "";
      FirstPiece("", "");
    } else if a[0] == '/' {
      assert (a + "/" + q)[1..] == a[1..] + "/" + q && (a + "/")[1..] == a[1..] + "/";
      PathConcat(im, ROOT, a[1..], q, isDir);
    } else {
      PathConcat(im, cwd, a, q, isDir);
    }
  }

  /** Changing to p/ and resolving q there is resolving p/q. */
  lemma ChangeThenResolve(im: Image, cwd: Offset, p: string, q: string, isDir: bool)
    requires ':' !in q && q != "" && q[0] != '/'
    ensures var there := Resolve(im, cwd, p + "/", true);
            Resolve(im, cwd, p + "/" + q, isDir) == if there.Fail? then there else Resolve(im, there.dir, q, isDir)
  {
    var a := AfterDevice(p);
    AfterDeviceConcat(p, "/");
    AfterDeviceConcat(p + "/", q);
    AfterDeviceConcat("", q);
    assert "" + q == q;
    StartConcat(im, cwd, a, q, isDir);
  }

  predicate Dots(component: string) {
    component == "." || component == ".."
  }

  /** Into a child and back with ".." is where one was; the root stays the root. */
  lemma UpUndoesDown(im: Image, dir: Offset, component: string)
    requires im.Valid() && dir in im.Table() && component != "" && !Dots(component)
    ensures Step(im, dir, component).At? ==> Step(im, Step(im, dir, component).dir, "..") == At(dir)
    ensures Step(im, ROOT, "..") == At(ROOT)
  {
    var units := im.units(component);
    if units.Some? {
      ChildStays(im, dir, units.value);
    }
  }

  /** In a path, a component that leads to a child is cancelled by the ".." after it. */
  lemma DotDotCancels(im: Image, dir: Offset, component: string, q: string, isDir: bool)
    requires im.Valid() && dir in im.Table() && '/' !in component && !Dots(component) && im.pathMax >= 2
    requires SlashStep(im, dir, component).At?
    ensures PathTo(im, dir, component + "/" + "../" + q, isDir) == PathTo(im, dir, q, isDir)
  {
    UpUndoesDown(im, dir, component);
    var child := Step(im, dir, component).dir;
    assert component + "/" + "../" + q == component + "/" + ("../" + q) && "../" + q == ".." + "/" + q;
    FirstPiece(component, "../" + q);
    FirstPiece("..", q);
    FoldCons(im, dir, component, Components("../" + q), isDir);
    FoldCons(im, child, "..", Components(q), isDir);
  }

  /** In a path, a component "." changes nothing. */
  lemma DotStays(im: Image, dir: Offset, q: string, isDir: bool)
    requires dir in im.Table() && im.pathMax >= 1
    ensures PathTo(im, dir, "./" + q, isDir) == PathTo(im, dir, q, isDir)
    ensures PathTo(im, dir, ".", true) == At(dir)
  {
    assert "./" + q == "." + "/" + q;
    FirstPiece(".", q);
    FoldCons(im, dir, ".", Components(q), isDir);
  }

  lemma FoldCons(im: Image, dir: Offset, component: string, pieces: seq<string>, isDir: bool)
    requires |pieces| > 0
    ensures Fold(im, dir, [component] + pieces, isDir) ==
            (var step := SlashStep(im, dir, component); if step.Fail? then step else Fold(im, step.dir, pieces, isDir))
  {
    assert ([component] + pieces)[1..] == pieces;
  }

  // Full paths.

  /** Going up from d, the names met are `names` from the last to the first, and then comes
      `top`. */
  predicate Ancestry(table: Table, top: Offset, d: Offset, names: seq<Name>)
    decreases |names|
  {
    d in table &&
    if names == [] then d == top
    else
      && table[d].name == names[|names| - 1]
      && Ancestry(table, top, table[d].parent, names[..|names| - 1])
  }

  /** A component spells a name when it converts to it and is one a path can hold. */
  predicate Spells(im: Image, component: string, name: Name) {
    && im.units(component) == Some(name)
    && component != "" && !Dots(component) && '/' !in component
    && |component| <= im.pathMax && |name| <= im.pathMax
  }

  predicate SpellsAll(im: Image, components: seq<string>, names: seq<Name>) {
    |components| == |names| && forall i :: 0 <= i < |names| ==> Spells(im, components[i], names[i])
  }

  lemma {:induction false} FoldSnoc(im: Image, dir: Offset, pieces: seq<string>, last: string)
    requires forall i :: 0 <= i < |pieces| ==> pieces[i] != ""
    ensures Fold(im, dir, pieces + [last, ""], true) ==
            (var first := Fold(im, dir, pieces + [""], true);
             if first.Fail? then first else SlashStep(im, first.dir, last))
  {
    if pieces == [] {
      assert [last, ""][1..] == [""];
      assert pieces + [last, ""] == [last, ""];
    } else {
      assert [last, ""][1..] == [""];
      FoldConcat(im, dir, pieces, [last, ""], true);
    }
  }

  lemma {:induction false} AncestryIsFold(im: Image, d: Offset, components: seq<string>, names: seq<Name>)
    requires im.Valid() && SpellsAll(im, components, names)
    ensures Fold(im, ROOT, components + [""], true) == At(d) <==> Ancestry(im.Table(), ROOT, d, names)
    ensures var o := Fold(im, ROOT, components + [""], true); o.At? ==> o.dir in im.Table()
    decreases |names|
  {
    var n := |names|;
    if n == 0 {
      assert components + [""] == [""];
    } else {
      var cs, ns := components[..n - 1], names[..n - 1];
      var c, name := components[n - 1], names[n - 1];
      assert Spells(im, c, name);
      assert components + [""] == cs + [c, ""];
      FoldSnoc(im, ROOT, cs, c);
      var first := Fold(im, ROOT, cs + [""], true);
      if d in im.Table() {
        AncestryIsFold(im, im.Table()[d].parent, cs, ns);
      }
      assert Filed(im.dirs, im.Table(), im.layout, d);
      AncestryIsFold(im, if first.At? then first.dir else ROOT, cs, ns);
      if first.At? {
        StepStays(im, first.dir, c);
        ChildMatches(im.dirs, im.Table(), false, im.layout, first.dir, name, d);
      }
    }
  }

  predicate NoColons(components: seq<string>) {
    forall i :: 0 <= i < |components| ==> ':' !in components[i]
  }

  /** Every directory is found at its own full path behind any device, whatever the current
      directory, and a full path leads nowhere else. The device is only needed by names with ':'. */
  lemma FullPathFinds(im: Image, cwd: Offset, device: string, d: Offset, components: seq<string>, names: seq<Name>)
    requires im.Valid() && SpellsAll(im, components, names) && names != [] && ':' !in device
    ensures Resolve(im, cwd, device + ":/" + Join(components), true) == At(d) <==>
            Ancestry(im.Table(), ROOT, d, names)
    ensures NoColons(components) ==>
              (Resolve(im, cwd, "/" + Join(components), true) == At(d) <==> Ancestry(im.Table(), ROOT, d, names))
  {
    assert forall i :: 0 <= i < |names| ==> Spells(im, components[i], names[i]);
    var path := "/" + Join(components);
    AbsolutePath(components);
    DevicePath(im, cwd, device, Join(components), true);
    if NoColons(components) {
      DeviceCutOff(path, "");
    }
    ClosingSlash(im, ROOT, components);
    AncestryIsFold(im, d, components, names);
  }

  /** The same for files: a full path finds the file of its last name in the directory the names
      before it lead to, and no other. */
  lemma FullPathFindsFile(im: Image, cwd: Offset, device: string, f: Offset,
                          components: seq<string>, names: seq<Name>, last: string, name: Name)
    requires im.Valid() && im.ValidFiles() && SpellsAll(im, components, names) && ':' !in device
    requires Spells(im, last, name) && |name| < im.pathMax
    ensures ResolveFile(im, cwd, device + ":/" + Join(components + [last])) == At(f) <==>
            IsFileBelow(im, names, name, f)
    ensures NoColons(components + [last]) ==>
              (ResolveFile(im, cwd, "/" + Join(components + [last])) == At(f) <==> IsFileBelow(im, names, name, f))
  {
    var path := "/" + Join(components + [last]);
    assert device + ":/" + Join(components + [last]) == device + ":" + path;
    DeviceCutOff(device, path);
    FileOfPath(im, cwd, device + ":" + path, f, components, names, last, name);
    if NoColons(components + [last]) {
      AbsolutePath(components + [last]);
      DeviceCutOff(path, "");
      FileOfPath(im, cwd, path, f, components, names, last, name);
    }
  }

  predicate IsFileBelow(im: Image, names: seq<Name>, name: Name, f: Offset) {
    var files := im.files.table;
    f in files && files[f].name == name && Ancestry(im.Table(), ROOT, files[f].parent, names)
  }

  lemma FileOfPath(im: Image, cwd: Offset, path: string, f: Offset,
                   components: seq<string>, names: seq<Name>, last: string, name: Name)
    requires im.Valid() && im.ValidFiles() && SpellsAll(im, components, names)
    requires Spells(im, last, name) && |name| < im.pathMax
    requires AfterDevice(path) == "/" + Join(components + [last])
    ensures ResolveFile(im, cwd, path) == At(f) <==> IsFileBelow(im, names, name, f)
  {
    var first := Fold(im, ROOT, components + [""], true);
    LastPiece(im, cwd, path, components, names, last, name);
    AncestryIsFold(im, if f in im.files.table then im.files.table[f].parent else ROOT, components, names);
    if first.At? {
      FileMatches(im, first.dir, name, f);
    }
  }

  lemma FileMatches(im: Image, d: Offset, name: Name, f: Offset)
    requires im.ValidFiles() && d in im.Table() && name != []
    ensures (f != NONE && ChildOf(im.files.table, im.fileLayout, d, name) == f) <==> Matches(im.files.table, f, d, name)
  {
    ChildMatches(im.files, im.Table(), true, im.fileLayout, d, name, f);
  }

  lemma LastPiece(im: Image, cwd: Offset, path: string, components: seq<string>, names: seq<Name>,
                  last: string, name: Name)
    requires SpellsAll(im, components, names) && Spells(im, last, name)
    requires AfterDevice(path) == "/" + Join(components + [last])
    ensures ResolveFile(im, cwd, path) ==
            (var first := Fold(im, ROOT, components + [""], true);
             if first.Fail? then first else FileIn(im, first.dir, last))
  {
    assert forall i :: 0 <= i < |components| ==> Spells(im, components[i], names[i]);
    AbsolutePath(components + [last]);
    FoldLast(im, components, last);
  }

  lemma FoldLast(im: Image, components: seq<string>, last: string)
    ensures Fold(im, ROOT, components + [last], false) == Fold(im, ROOT, components + [""], true)
  {
    if components == [] {
      assert components + [last] == [last] && components + [""] == [""];
    } else {
      FoldConcat(im, ROOT, components, [last], false);
    }
  }

  /** The components of an absolute path are the pieces it was joined from. */
  lemma AbsolutePath(pieces: seq<string>)
    requires |pieces| > 0 && forall i :: 0 <= i < |pieces| ==> '/' !in pieces[i]
    ensures var path := "/" + Join(pieces);
            Components(path[1..]) == pieces && LastOf(path) == pieces[|pieces| - 1]
    ensures NoColons(pieces) ==> ':' !in "/" + Join(pieces)
  {
    var path := "/" + Join(pieces);
    ComponentsJoin(pieces);
    assert path[1..] == Join(pieces);
    LastAfterRoot(path);
    if NoColons(pieces) {
      NoColon(pieces);
    }
  }

  lemma {:induction false} NoColon(components: seq<string>)
    requires |components| > 0 && NoColons(components)
    ensures ':' !in Join(components)
    decreases |components|
  {
    if |components| > 1 {
      NoColon(components[1..]);
    }
  }

  // Errors.

  ghost predicate HasChild(im: Image, dir: Offset, name: Name) {
    exists child :: Matches(im.Table(), child, dir, name)
  }

  /** Why a component other than "." and ".." leads nowhere: it does not convert, converts to
      too much, or there is no such child. */
  lemma StepErrors(im: Image, dir: Offset, component: string)
    requires im.Valid() && dir in im.Table() && component != "" && !Dots(component)
    ensures var step, units := Step(im, dir, component), im.units(component);
            && (step == Fail(EILSEQ) <==> units.None?)
            && (step == Fail(ENAMETOOLONG) <==> units.Some? && |units.value| > im.pathMax)
            && (step == Fail(ENOENT) <==>
                  units.Some? && |units.value| <= im.pathMax && !HasChild(im, dir, units.value))
  {
    var units := im.units(component);
    if units.Some? && HasChild(im, dir, units.value) {
      var child :| Matches(im.Table(), child, dir, units.value);
      ChildMatches(im.dirs, im.Table(), false, im.layout, dir, units.value, child);
    }
    if units.Some? {
      ChildStays(im, dir, units.value);
    }
  }

  /** In a path, an empty component before a '/' is malformed, and one of more characters than
      the limit is too long. */
  lemma SlashErrors(im: Image, dir: Offset, component: string, q: string, isDir: bool)
    requires '/' !in component
    ensures PathTo(im, dir, "/" + q, isDir) == Fail(EILSEQ)
    ensures |component| > im.pathMax ==> PathTo(im, dir, component + "/" + q, isDir) == Fail(ENAMETOOLONG)
  {
    FirstPiece(component, q);
    FoldCons(im, dir, component, Components(q), isDir);
    FirstPiece("", q);
    assert "" + "/" + q == "/" + q;
    FoldCons(im, dir, "", Components(q), isDir);
  }

  ghost predicate HasFile(im: Image, dir: Offset, name: Name) {
    exists file :: Matches(im.files.table, file, dir, name)
  }

  /** Why there is no such file in a directory; a name of as many units as the limit is already
      too long here. */
  lemma FileErrors(im: Image, dir: Offset, last: string)
    requires im.ValidFiles() && dir in im.Table()
    ensures var found, units := FileIn(im, dir, last), im.units(last);
            && (found == Fail(EILSEQ) <==> units.None? || units.value == [])
            && (found == Fail(ENAMETOOLONG) <==> units.Some? && units.value != [] && |units.value| >= im.pathMax)
            && (found == Fail(ENOENT) <==> units.Some? && units.value != [] && |units.value| < im.pathMax
                                           && !HasFile(im, dir, units.value))
  {
    var units := im.units(last);
    if units.Some? && units.value != [] {
      if HasFile(im, dir, units.value) {
        var file :| Matches(im.files.table, file, dir, units.value);
        FileMatches(im, dir, units.value, file);
      } else {
        FileMatches(im, dir, units.value, ChildOf(im.files.table, im.fileLayout, dir, units.value));
      }
    }
  }

  /** What opening fails with: it is read-only, so writing and creating are refused, and an
      existing file is refused to one who insists on a new one. */
  lemma OpenErrors(im: Image, cwd: Offset, path: string, flags: Flags)
    ensures var found, file := Opened(im, cwd, path, flags), ResolveFile(im, cwd, path);
            && (!flags.readOnly ==> found == Fail(EROFS))
            && (flags.readOnly && file.At? && flags.create && flags.exclusive ==> found == Fail(EEXIST))
            && (flags.readOnly && file == Fail(ENOENT) && !flags.create ==> found == Fail(ENOENT))
            && (flags.readOnly && file.Fail? && file.error != ENOENT ==> found == file)
    ensures var start := Resolve(im, cwd, path, false);
            flags.readOnly && flags.create && ResolveFile(im, cwd, path) == Fail(ENOENT) ==>
              Opened(im, cwd, path, flags) == Fail(if start.At? then EROFS else ENOENT)
  {
  }
}
