/** The local file an object key names: filepath.Join of an absolute directory and the key. */
module Paths {
  import opened Lines
  import opened Provenance
  import opened Sync
  import opened Text
  import opened Wrappers

  function Components(s: string): (parts: seq<string>)
    ensures parts != []
  {
    Pieces(s, '/')
  }

  /** A component that names an entry of a directory. */
  predicate IsProper(part: string) {
    part != "" && part != "." && part != ".." && '/' !in part
  }

  ghost predicate AreProper(parts: seq<string>) {
    forall part :: part in parts ==> IsProper(part)
  }

  /** Lexical cleaning: empty components and dots go, two dots take their parent with them. */
  function Resolve(dir: seq<string>, parts: seq<string>): seq<string>
    decreases parts
  {
    if parts == [] then dir
    else
      var part := parts[0];
      var next :=
        if part == "" || part == "." then dir
        else if part != ".." then dir + [part]
        else if dir == [] then []
        else dir[..|dir| - 1];
      Resolve(next, parts[1..])
  }

  /** Component by component: dots stay, two dots go to the parent, and the root is its own parent. */
  lemma {:induction false} ResolveByComponent(dir: seq<string>, parts: seq<string>, part: string)
    ensures Resolve(dir, []) == dir
    ensures var before := Resolve(dir, parts);
            Resolve(dir, parts + [part]) ==
            if part == "" || part == "." then before
            else if part != ".." then before + [part]
            else if before == [] then []
            else before[..|before| - 1]
    decreases parts
  {
    if parts == [] {
      assert ([] + [part])[1..] == [];
    } else {
      assert (parts + [part])[1..] == parts[1..] + [part];
      var first := parts[0];
      var next :=
        if first == "" || first == "." then dir
        else if first != ".." then dir + [first]
        else if dir == [] then []
        else dir[..|dir| - 1];
      ResolveByComponent(next, parts[1..], part);
    }
  }

  /** The file's name below the directory, or its absolute name if it is elsewhere. */
  function PathOf(dir: seq<string>, key: string): string {
    var file := Resolve(dir, Components(key));
    if dir <= file then Join(file[|dir|..], "/") else "/" + Join(file, "/")
  }

  lemma {:induction false} ResolveProper(dir: seq<string>, parts: seq<string>)
    requires AreProper(parts)
    ensures Resolve(dir, parts) == dir + parts
    decreases parts
  {
    if parts == [] {
      assert dir + [] == dir;
    } else {
      assert IsProper(parts[0]);
      ResolveProper(dir + [parts[0]], parts[1..]);
      assert (dir + [parts[0]]) + parts[1..] == dir + parts;
    }
  }

  lemma {:induction false} ResolvedIsProper(dir: seq<string>, parts: seq<string>)
    requires AreProper(dir) && forall part :: part in parts ==> '/' !in part
    ensures AreProper(Resolve(dir, parts))
    decreases parts
  {
    if parts != [] {
      var part := parts[0];
      assert part in parts;
      var next :=
        if part == "" || part == "." then dir
        else if part != ".." then dir + [part]
        else if dir == [] then []
        else dir[..|dir| - 1];
      ResolvedIsProper(next, parts[1..]);
    }
  }

  /** A key names its own file exactly if all its components are proper, or it is empty and names the directory. */
  lemma OwnPathIff(dir: seq<string>, key: string)
    requires AreProper(dir)
    ensures PathOf(dir, key) == key <==> key == "" || AreProper(Components(key))
  {
    hide Join, Pieces, Resolve;
    var parts := Components(key);
    var file := Resolve(dir, parts);
    PiecesHaveNoSep(key, '/');
    ResolvedIsProper(dir, parts);
    if AreProper(parts) {
      ResolveProper(dir, parts);
      assert (dir + parts)[|dir|..] == parts;
      JoinPieces(key, '/');
    } else if dir <= file {
      var below := file[|dir|..];
      assert forall part :: part in below ==> part in file;
      if below != [] { PiecesOfJoin(below, '/'); }
      EmptyKey(dir);
    } else if key == "/" + Join(file, "/") {
      AbsoluteKey(dir, file);
    } else {
      EmptyKey(dir);
    }
  }

  lemma EmptyKey(dir: seq<string>)
    ensures Resolve(dir, Components("")) == dir && Join([], "/") == ""
  {
  }

  /** No key reads like an absolute name, since its leading slash is dropped. */
  lemma AbsoluteKey(dir: seq<string>, file: seq<string>)
    requires AreProper(file)
    ensures dir <= Resolve(dir, Components("/" + Join(file, "/")))
  {
    PiecesAfterSep("", Join(file, "/"), '/');
    assert "" + "/" + Join(file, "/") == "/" + Join(file, "/");
    if file == [] {
      EmptyKey(dir);
      assert ([""] + Components(""))[1..] == Components("");
    } else {
      PiecesOfJoin(file, '/');
      ResolveProper(dir, file);
      assert ([""] + file)[1..] == file;
    }
  }

  lemma JoinedProper(parts: seq<string>)
    requires AreProper(parts)
    ensures Join(parts, "/") == "" <==> parts == []
    ensures Join(parts, "/") != "" ==> Join(parts, "/")[0] != '/' && Components(Join(parts, "/")) == parts
  {
    hide Pieces;
    if parts != [] {
      assert parts[0] in parts;
      PiecesOfJoin(parts, '/');
      JoinHead(parts[0], parts[1..], "/");
      assert [parts[0]] + parts[1..] == parts;
    }
  }

  /** The file a path stands for: a name below the directory, or an absolute one. */
  function FileOf(dir: seq<string>, path: string): seq<string> {
    if path == "" then dir
    else if path[0] != '/' then dir + Components(path)
    else if path == "/" then []
    else Components(path[1..])
  }

  /** The path keeps everything about the file a key names. */
  lemma PathKeepsFile(dir: seq<string>, key: string)
    requires AreProper(dir)
    ensures FileOf(dir, PathOf(dir, key)) == Resolve(dir, Components(key))
  {
    hide Join, Resolve, Pieces;
    var file := Resolve(dir, Components(key));
    PiecesHaveNoSep(key, '/');
    ResolvedIsProper(dir, Components(key));
    if dir <= file {
      var below := file[|dir|..];
      assert forall part :: part in below ==> part in file;
      JoinedProper(below);
      assert file == dir + below;
    } else {
      JoinedProper(file);
      assert ("/" + Join(file, "/"))[1..] == Join(file, "/");
    }
  }

  /** So two keys name one file exactly when they resolve to the same components. */
  lemma SamePathIff(dir: seq<string>, key: string, other: string)
    requires AreProper(dir)
    ensures PathOf(dir, key) == PathOf(dir, other) <==>
            Resolve(dir, Components(key)) == Resolve(dir, Components(other))
  {
    hide Resolve, Components, FileOf;
    PathKeepsFile(dir, key);
    PathKeepsFile(dir, other);
  }

  /** So plain event files are their own paths, as a sync asks of its configuration. */
  lemma JoinKeepsNames(dir: seq<string>)
    requires AreProper(dir)
    ensures KeepsNames(key => PathOf(dir, key))
  {
    forall name | IsIndexed(name) ensures PathOf(dir, name) == name {
      OnePiece(name, '/');
      OwnPathIff(dir, name);
    }
  }

  /** But a file has other spellings. */
  lemma DotSpelling(dir: seq<string>, name: string)
    requires IsProper(name)
    ensures PathOf(dir, "./" + name) == name
  {
    PiecesAfterSep(".", name, '/');
    assert "." + "/" + name == "./" + name;
    OnePiece(name, '/');
    ResolveProper(dir, [name]);
  }

  /**
   So an object under "./a.jsonl" replaces the indexed file "a.jsonl", as it
   would any other one.  The run reports nothing, the next one what differs.
   */
  lemma DotKeyOverwrites(j: Json, digest: Digest, cfg: Config, dir: seq<string>, at: string, name: string,
      before: string, data: string)
    requires IsJson(j) && ObjectLines(j, Split(data)) != [] && cfg.filter == None && IsIndexed(name)
    requires forall key :: cfg.pathOf(key) == PathOf(dir, key)
    ensures var key := "./" + name;
            var local, remote := map[name := before], map[key := data];
            var local' := LocalAfter(j, cfg, at, local, remote, [key]);
            && Downloads(j, cfg, at, local, remote) == {key}
            && local' == map[name := Tagged(j, data, InfoOf(cfg, key, at))]
            && Conflicts(j, digest, local, remote) == {}
            && (forall k :: (name, k) in Conflicts(j, digest, local', RemoteAfter(local, remote)) <==>
                 k in ObjectConflicts(j, digest, data, before))
  {
    hide IsJson, ObjectLines, Split, Tagged, LocalAfter, Conflicts, PathOf, Downloads, RemoteAfter;
    var key := "./" + name;
    assert key[1] == '/';
    DotSpelling(dir, name);
    OtherSpellingOverwrites(j, digest, cfg, at, name, key, before, data);
  }
}
