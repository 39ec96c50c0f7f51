/** RomFS paths: the walk from directory to directory along the components of a path. */
module RomFsPath {
  import opened RomFs

  datatype Option<T> = None | Some(value: T)
  datatype Errno = EILSEQ | ENAMETOOLONG | ENOENT | EROFS | EEXIST
  datatype Outcome = At(dir: Offset) | Fail(error: Errno)

  /** A mounted image: its directories and files with the tree they form, the conversion from
      UTF-8 to UTF-16 (None for malformed text) and the limit on a component's length. */
  datatype Image = Image(dirs: Index, layout: Layout, files: Index, fileLayout: Layout,
                         units: string -> Option<Name>, pathMax: nat) {
    function Table(): Table { dirs.table }

    /** The root is its own parent and has no name; text that is not empty has units. */
    ghost predicate Valid() {
      && WellFormed(dirs, Table(), false, layout)
      && ROOT in Table() && Table()[ROOT].parent == ROOT && Table()[ROOT].name == []
      && forall s: string :: s != "" ==> units(s) != Some([])
    }

    ghost predicate ValidFiles() {
      WellFormed(files, Table(), true, fileLayout)
    }
  }

  // Components of a path.

  function FirstAt(s: string, c: char): (i: nat)
    ensures i <= |s| && (i < |s| ==> s[i] == c)
    ensures forall k :: 0 <= k < i ==> s[k] != c
  {
    if s == "" || s[0] == c then 0 else FirstAt(s[1..], c) + 1
  }

  /** The path cut at every '/', so that joining the pieces with '/' gives it back. */
  function Components(path: string): (pieces: seq<string>)
    ensures |pieces| > 0
    decreases |path|
  {
    var i := FirstAt(path, '/');
    if i == |path| then [path] else [path[..i]] + Components(path[i + 1..])
  }

  function Join(pieces: seq<string>): string
    requires |pieces| > 0
  {
    if |pieces| == 1 then pieces[0] else pieces[0] + "/" + Join(pieces[1..])
  }

  lemma {:induction false} JoinComponents(path: string)
    ensures Join(Components(path)) == path
    decreases |path|
  {
    var i := FirstAt(path, '/');
    if i == |path| {
      assert path[..i] == path;
    } else {
      var rest := path[i + 1..];
      JoinComponents(rest);
      JoinPrepend(path[..i], Components(rest));
      assert path == path[..i] + "/" + rest;
    }
  }

  lemma JoinPrepend(head: string, pieces: seq<string>)
    requires |pieces| > 0
    ensures Join([head] + pieces) == head + "/" + Join(pieces)
  {
    assert ([head] + pieces)[1..] == pieces;
  }

  lemma FirstPiece(head: string, rest: string)
    requires '/' !in head
    ensures Components(head) == [head]
    ensures Components(head + "/" + rest) == [head] + Components(rest)
  {
    assert head[..|head|] == head;
    var path := head + "/" + rest;
    assert forall k :: 0 <= k < |head| ==> path[k] == head[k];
    assert path[|head|] == '/';
    assert FirstAt(path, '/') == |head|;
    assert path[..|head|] == head && path[|head| + 1..] == rest;
  }

  lemma {:induction false} ComponentsJoin(pieces: seq<string>)
    requires |pieces| > 0 && forall i :: 0 <= i < |pieces| ==> '/' !in pieces[i]
    ensures Components(Join(pieces)) == pieces
    decreases |pieces|
  {
    var head, tail := pieces[0], pieces[1..];
    assert pieces == [head] + tail;
    if tail == [] {
      FirstPiece(head, "");
    } else {
      ComponentsJoin(tail);
      JoinPrepend(head, tail);
      FirstPiece(head, Join(tail));
    }
  }

  // Steps along the tree.

  /** The step a component names: stay, go to the parent, or go to the child of that name. */
  function Step(im: Image, dir: Offset, component: string): Outcome
  {
    if dir !in im.Table() then Fail(ENOENT)
    else if component == "." then At(dir)
    else if component == ".." then At(im.Table()[dir].parent)
    else match im.units(component)
      case None => Fail(EILSEQ)
      case Some(name) =>
        if |name| > im.pathMax then Fail(ENAMETOOLONG)
        else
          var child := ChildOf(im.Table(), im.layout, dir, name);
          if child == NONE then Fail(ENOENT) else At(child)
  }

  /** A component followed by '/' must not be empty, nor longer than the limit. */
  function SlashStep(im: Image, dir: Offset, component: string): Outcome
  {
    if component == "" then Fail(EILSEQ)
    else if |component| > im.pathMax then Fail(ENAMETOOLONG)
    else Step(im, dir, component)
  }

  /** The fold of the steps of the pieces of a path. All but the last are followed by '/'; the
      last one is a step only when it is not empty and `isDir` says it names a directory. */
  function Fold(im: Image, dir: Offset, pieces: seq<string>, isDir: bool): Outcome
    requires |pieces| > 0
    decreases |pieces|
  {
    if |pieces| == 1 then
      if pieces[0] == "" || !isDir then At(dir) else Step(im, dir, pieces[0])
    else
      match SlashStep(im, dir, pieces[0])
      case Fail(e) => Fail(e)
      case At(d) => Fold(im, d, pieces[1..], isDir)
  }

  lemma ChildStays(im: Image, dir: Offset, name: Name)
    requires im.Valid() && dir in im.Table() && name != []
    ensures var child := ChildOf(im.Table(), im.layout, dir, name);
            child == NONE || Matches(im.Table(), child, dir, name)
  {
    ChildMatches(im.dirs, im.Table(), false, im.layout, dir, name, ChildOf(im.Table(), im.layout, dir, name));
  }

  lemma StepStays(im: Image, dir: Offset, component: string)
    requires im.Valid() && dir in im.Table() && component != ""
    ensures Step(im, dir, component).At? ==> Step(im, dir, component).dir in im.Table()
  {
    assert Filed(im.dirs, im.Table(), im.layout, dir);
    var units := im.units(component);
    if units.Some? {
      ChildStays(im, dir, units.value);
    }
  }

  function LastOf(p: string): string {
    var pieces := Components(p);
    pieces[|pieces| - 1]
  }

  lemma LastAfterRoot(p: string)
    requires p != "" && p[0] == '/'
    ensures LastOf(p) == LastOf(p[1..])
  {
    FirstPiece("", p[1..]);
    assert p == "" + "/" + p[1..];
  }

  /** The fold over a path, by its first component. */
  lemma UnrollFold(im: Image, dir: Offset, path: string, isDir: bool)
    ensures var i := FirstAt(path, '/');
            Fold(im, dir, Components(path), isDir) ==
            if i == |path| then if path == "" || !isDir then At(dir) else Step(im, dir, path)
            else
              match SlashStep(im, dir, path[..i])
              case Fail(e) => Fail(e)
              case At(d) => Fold(im, d, Components(path[i + 1..]), isDir)
    ensures var i := FirstAt(path, '/'); i < |path| ==> LastOf(path) == LastOf(path[i + 1..])
    ensures var i := FirstAt(path, '/'); i == |path| ==> LastOf(path) == path
  {
    var i := FirstAt(path, '/');
    if i < |path| {
      assert Components(path)[1..] == Components(path[i + 1..]);
    }
  }

  /** The part after the first ':' when there is one. */
  function AfterDevice(path: string): string {
    var i := FirstAt(path, ':');
    if i < |path| then path[i + 1..] else path
  }

  /** Where a path leads: from the root when it starts with '/', else from the current
      directory. */
  function Resolve(im: Image, cwd: Offset, path: string, isDir: bool): Outcome {
    FromStart(im, cwd, AfterDevice(path), isDir)
  }

  function FromStart(im: Image, cwd: Offset, p: string, isDir: bool): Outcome {
    if p == "" then Fail(EILSEQ)
    else if p[0] == '/' then Fold(im, ROOT, Components(p[1..]), isDir)
    else Fold(im, cwd, Components(p), isDir)
  }

  /** What a file path means: the file of that name in the directory before the last '/'. */
  function ResolveFile(im: Image, cwd: Offset, path: string): Outcome {
    match Resolve(im, cwd, path, false)
    case Fail(e) => Fail(e)
    case At(d) => FileIn(im, d, LastOf(AfterDevice(path)))
  }

  function FileIn(im: Image, d: Offset, last: string): Outcome {
    match im.units(last)
    case None => Fail(EILSEQ)
    case Some(name) =>
      if name == [] then Fail(EILSEQ)
      else if |name| >= im.pathMax then Fail(ENAMETOOLONG)
      else
        var file := ChildOf(im.files.table, im.fileLayout, d, name);
        if file == NONE then Fail(ENOENT) else At(file)
  }

  /** The open flags that matter: whether only reading is asked for, O_CREAT and O_EXCL. */
  datatype Flags = Flags(readOnly: bool, create: bool, exclusive: bool)

  /** What opening comes to, once the directory has been searched for the file. */
  function Permitted(found: Outcome, flags: Flags): Outcome {
    match found
    case Fail(ENOENT) => Fail(if flags.create then EROFS else ENOENT)
    case Fail(e) => Fail(e)
    case At(_) => if flags.create && flags.exclusive then Fail(EEXIST) else found
  }

  function Opened(im: Image, cwd: Offset, path: string, flags: Flags): Outcome {
    if !flags.readOnly then Fail(EROFS)
    else match Resolve(im, cwd, path, false)
      case Fail(e) => Fail(e)
      case At(d) => Permitted(FileIn(im, d, LastOf(AfterDevice(path))), flags)
  }

  /** Opening yields what the path means as a file, if it is for reading only and does not insist
      on a new file; and it never yields anything else. */
  lemma OpensExactly(im: Image, cwd: Offset, path: string, flags: Flags, file: Offset)
    ensures Opened(im, cwd, path, flags) == At(file) <==>
            flags.readOnly && !(flags.create && flags.exclusive) && ResolveFile(im, cwd, path) == At(file)
  {
  }

  class Mount {
    const image: Image
    var cwd: Offset

    constructor (image: Image)
      requires image.Valid()
      ensures this.image == image && cwd == 0
    {
      this.image := image;
      cwd := ROOT;
    }

    /** One turn of the loop: the directory a component leads to. */
    method Enter(dir: Offset, component: string) returns (outcome: Outcome)
      requires image.Valid() && dir in image.Table() && component != ""
      ensures outcome == Step(image, dir, component)
      ensures outcome.At? ==> outcome.dir in image.Table()
    {
      StepStays(image, dir, component);
      if component == "." {
        return At(dir);
      }
      if component == ".." {
        return At(image.Table()[dir].parent);
      }
      var units := image.units(component);
      if units.None? {
        return Fail(EILSEQ);
      }
      if |units.value| > image.pathMax {
        return Fail(ENAMETOOLONG);
      }
      var child := Search(image.dirs, dir, units.value, image.Table(), false, image.layout);
      return if child == NONE then Fail(ENOENT) else At(child);
    }

    /** One turn of the loop of navigateToDir, which may end it. */
    method Turn(dir: Offset, path: string, isDir: bool) returns (stop: bool, outcome: Outcome, rest: string)
      requires image.Valid() && dir in image.Table() && path != ""
      ensures outcome.At? ==> outcome.dir in image.Table()
      ensures stop ==> outcome == Fold(image, dir, Components(path), isDir)
      ensures stop && outcome.At? ==> !isDir && rest == LastOf(path)
      ensures !stop ==> outcome.At? && |rest| < |path|
      ensures !stop ==> Fold(image, outcome.dir, Components(rest), isDir) == Fold(image, dir, Components(path), isDir)
      ensures !stop ==> LastOf(rest) == LastOf(path) || (isDir && rest == "")
    {
      UnrollFold(image, dir, path, isDir);
      var slashPos := FirstAt(path, '/');
      var component := path;
      if slashPos < |path| {
        if slashPos == 0 {
          return true, Fail(EILSEQ), path;
        }
        if slashPos > image.pathMax {
          return true, Fail(ENAMETOOLONG), path;
        }
        component := path[..slashPos];
        rest := path[slashPos + 1..];
      } else if isDir {
        rest := "";
      } else {
        return true, At(dir), path;
      }
      outcome := Enter(dir, component);
      stop := outcome.Fail?;
    }

    /** The loop of navigateToDir: from `from`, along the components of `path`. */
    method Walk(from: Offset, path: string, isDir: bool) returns (outcome: Outcome, rest: string)
      requires image.Valid() && from in image.Table()
      ensures outcome == Fold(image, from, Components(path), isDir)
      ensures outcome.At? ==> outcome.dir in image.Table()
      ensures outcome.At? ==> rest == if isDir then "" else LastOf(path)
    {
      outcome := At(from);
      rest := path;
      while rest != ""
        invariant outcome.At? && outcome.dir in image.Table()
        invariant Fold(image, outcome.dir, Components(rest), isDir) == Fold(image, from, Components(path), isDir)
        invariant LastOf(rest) == LastOf(path) || (isDir && rest == "")
        decreases |rest|
      {
        var stop;
        stop, outcome, rest := Turn(outcome.dir, rest, isDir);
        if stop {
          return;
        }
      }
    }

    /** navigateToDir. On success the part of the path not walked is what follows the last '/'
        for a file, and nothing for a directory. */
    method NavigateToDir(path: string, isDir: bool) returns (outcome: Outcome, rest: string)
      requires image.Valid() && cwd in image.Table()
      ensures outcome == Resolve(image, cwd, path, isDir)
      ensures outcome.At? ==> outcome.dir in image.Table()
      ensures outcome.At? ==> rest == if isDir then "" else LastOf(AfterDevice(path))
    {
      var colonPos := FirstAt(path, ':');
      rest := if colonPos < |path| then path[colonPos + 1..] else path;
      if rest == "" {
        return Fail(EILSEQ), rest;
      }
      var dir := cwd;
      if rest[0] == '/' {
        LastAfterRoot(rest);
        dir := ROOT;
        rest := rest[1..];
      }
      outcome, rest := Walk(dir, rest, isDir);
    }

    /** romfs_chdir. */
    method ChangeDir(path: string) returns (outcome: Outcome)
      requires image.Valid() && cwd in image.Table()
      modifies this
      ensures outcome == Resolve(image, old(cwd), path, true)
      ensures cwd == if outcome.At? then outcome.dir else old(cwd)
      ensures cwd in image.Table()
    {
      var rest;
      outcome, rest := NavigateToDir(path, true);
      if outcome.At? {
        cwd := outcome.dir;
      }
    }

    /** romfs_open, as far as finding the file. */
    method Open(path: string, flags: Flags) returns (outcome: Outcome)
      requires image.Valid() && image.ValidFiles() && cwd in image.Table()
      ensures outcome == Opened(image, cwd, path, flags)
    {
      if !flags.readOnly {
        return Fail(EROFS);
      }
      var rest;
      outcome, rest := NavigateToDir(path, false);
      if outcome.Fail? {
        return;
      }
      outcome := LookUp(outcome.dir, rest);
      if outcome == Fail(ENOENT) {
        if flags.create { outcome := Fail(EROFS); }
      } else if outcome.At? && flags.create && flags.exclusive {
        outcome := Fail(EEXIST);
      }
    }

    method LookUp(dir: Offset, last: string) returns (outcome: Outcome)
      requires image.ValidFiles() && dir in image.Table()
      ensures outcome == FileIn(image, dir, last)
    {
      var units := image.units(last);
      if units.None? || units.value == [] {
        return Fail(EILSEQ);
      }
      if |units.value| >= image.pathMax {
        return Fail(ENAMETOOLONG);
      }
      var file := Search(image.files, dir, units.value, image.Table(), true, image.fileLayout);
      return if file == NONE then Fail(ENOENT) else At(file);
    }
  }
}
