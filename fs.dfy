/**
 * An abstract filesystem and the Ruby `File` / `FileUtils` calls bootstrap.rb
 * makes on it. The filesystem is a flat map from absolute path to node;
 * symbolic links are followed on the last path component, at most
 * `MaxSymlinks` times, as the kernel does. A failing call yields the nearest
 * of the four errnos the model knows to the one Ruby would raise.
 */
module Fs {
  import opened Wrappers
  import opened Paths

  datatype Node = File(content: string) | Link(target: Path) | Dir

  type FileSystem = map<Path, Node>

  datatype Errno = NoEntry | IsADirectory | FileExists | TooManyLinks

  datatype IoError = IoError(errno: Errno, path: Path)

  /** The kernel's bound on symbolic links followed in one lookup (ELOOP beyond it). */
  const MaxSymlinks: nat := 40

  predicate IsLinkAt(fs: FileSystem, p: Path)
  {
    p in fs && fs[p].Link?
  }

  /** The path reached from `p` by following links, or None after too many. */
  function Resolve(fs: FileSystem, p: Path, fuel: nat): (r: Option<Path>)
    ensures r.Some? ==> !IsLinkAt(fs, r.value)
    ensures !IsLinkAt(fs, p) ==> r == Some(p)
    decreases fuel
  {
    if !IsLinkAt(fs, p) then Some(p)
    else if fuel == 0 then None
    else Resolve(fs, fs[p].target, fuel - 1)
  }

  /** Where `p` physically leads. */
  function Physical(fs: FileSystem, p: Path): Option<Path>
  {
    Resolve(fs, p, MaxSymlinks)
  }

  /** `stat(2)`: the node `p` leads to, following links; never a link. */
  function Stat(fs: FileSystem, p: Path): (r: Option<Node>)
    ensures r.Some? ==> !r.value.Link?
    ensures r.Some? <==> Physical(fs, p).Some? && Physical(fs, p).value in fs
  {
    match Physical(fs, p)
    case None => None
    case Some(q) => if q in fs then Some(fs[q]) else None
  }

  /** `File.exist?`: follows links, so a dangling link does not exist. */
  predicate Exists(fs: FileSystem, p: Path)
    ensures p !in fs ==> !Exists(fs, p)
    ensures p in fs && !fs[p].Link? ==> Exists(fs, p)
    ensures IsLinkAt(fs, p) && !IsLinkAt(fs, fs[p].target) ==> (Exists(fs, p) <==> fs[p].target in fs)
  {
    Stat(fs, p).Some?
  }

  /** `File.directory?`: follows links, so a link to a directory is one. */
  predicate IsDirectory(fs: FileSystem, p: Path)
    ensures IsDirectory(fs, p) ==> Exists(fs, p)
    ensures p in fs && !fs[p].Link? ==> (IsDirectory(fs, p) <==> fs[p] == Dir)
    ensures IsLinkAt(fs, p) && !IsLinkAt(fs, fs[p].target) ==>
      (IsDirectory(fs, p) <==> fs[p].target in fs && fs[fs[p].target] == Dir)
  {
    Stat(fs, p) == Some(Dir)
  }

  /** `File.identical?`: both exist and lead to the same node. */
  predicate Identical(fs: FileSystem, a: Path, b: Path)
    ensures Identical(fs, a, b) ==> Exists(fs, a) && Exists(fs, b)
    ensures Identical(fs, a, b) ==> Stat(fs, a) == Stat(fs, b)
    ensures Identical(fs, a, b) ==> Physical(fs, a) == Physical(fs, b)
    ensures a == b ==> (Identical(fs, a, b) <==> Exists(fs, a))
    ensures a != b && a in fs && b in fs && !fs[a].Link? && !fs[b].Link? ==> !Identical(fs, a, b)
    ensures IsLinkAt(fs, a) && fs[a].target == b && b in fs && !fs[b].Link? ==> Identical(fs, a, b)
  {
    Exists(fs, a) && Exists(fs, b) && Physical(fs, a) == Physical(fs, b)
  }

  /** Replacing a node that is not a link by another non-link moves no lookup. */
  lemma {:induction false} ResolveAfterUpdate(fs: FileSystem, p: Path, fuel: nat, q: Path, n: Node)
    requires !IsLinkAt(fs, q) && !n.Link?
    ensures Resolve(fs[q := n], p, fuel) == Resolve(fs, p, fuel)
    decreases fuel
  {
    if IsLinkAt(fs, p) && fuel > 0 {
      ResolveAfterUpdate(fs, fs[p].target, fuel - 1, q, n);
    }
  }

  /**
   * `mkdir -p` over `dirs`, outermost first: a missing directory is created,
   * an existing directory (or link to one) is passed through, and anything
   * else stops the command, leaving the rest uncreated.
   */
  function MkdirP(fs: FileSystem, dirs: seq<Path>): (r: FileSystem)
    ensures forall p :: p in fs ==> p in r && r[p] == fs[p]
    ensures forall p :: p in r && p !in fs ==> p in dirs && r[p] == Dir
    ensures (forall k :: 0 <= k < |dirs| ==> dirs[k] !in fs || fs[dirs[k]] == Dir) ==>
      forall k :: 0 <= k < |dirs| ==> dirs[k] in r && r[dirs[k]] == Dir
    decreases |dirs|
  {
    if dirs == [] then fs
    else if dirs[0] !in fs then MkdirP(fs[dirs[0] := Dir], dirs[1..])
    else if IsDirectory(fs, dirs[0]) then MkdirP(fs, dirs[1..])
    else fs
  }

  /** `FileUtils.rm(p)`: unlinks a file or a link itself; a directory raises. */
  function Unlink(fs: FileSystem, p: Path): (r: Result<FileSystem, IoError>)
    ensures r.Ok? <==> p in fs && !fs[p].Dir?
    ensures r.Ok? ==> p !in r.value && forall k :: k in fs && k != p ==> k in r.value && r.value[k] == fs[k]
    ensures r.Ok? ==> r.value.Keys == fs.Keys - {p}
  {
    if p !in fs then Err(IoError(NoEntry, p))
    else if fs[p].Dir? then Err(IoError(IsADirectory, p))
    else Ok(fs - {p})
  }

  /** `File.read(p)`: the content of the file `p` leads to. */
  function ReadFile(fs: FileSystem, p: Path): (r: Result<string, IoError>)
    ensures r.Ok? ==> Stat(fs, p) == Some(File(r.value))
    ensures r.Err? ==> !(Stat(fs, p).Some? && Stat(fs, p).value.File?)
  {
    match Physical(fs, p)
    case None => Err(IoError(TooManyLinks, p))
    case Some(q) =>
      if q !in fs then Err(IoError(NoEntry, p))
      else if fs[q].Dir? then Err(IoError(IsADirectory, p))
      else Ok(fs[q].content)
  }

  /**
   * `File.open(p, 'w') { |io| io.write(text) }`: opening follows links, so
   * the file written is the one `p` leads to; a missing file is created when
   * its directory exists.
   */
  function WriteFile(fs: FileSystem, p: Path, text: string): (r: Result<FileSystem, IoError>)
    ensures r.Ok? <==>
      && Physical(fs, p).Some?
      && !(Physical(fs, p).value in fs && fs[Physical(fs, p).value].Dir?)
      && (Physical(fs, p).value !in fs ==> IsDirectory(fs, ParentOf(Physical(fs, p).value)))
    ensures r.Ok? ==> Stat(r.value, p) == Some(File(text))
    ensures r.Ok? ==> forall k :: k in fs ==> k in r.value
    ensures r.Ok? ==> forall k :: k in r.value && r.value[k].Link? ==> k in fs && fs[k] == r.value[k]
    ensures r.Ok? ==> forall k :: k in r.value && k != Physical(fs, p).value ==> k in fs && fs[k] == r.value[k]
  {
    match Physical(fs, p)
    case None => Err(IoError(TooManyLinks, p))
    case Some(q) =>
      if q in fs && fs[q].Dir? then Err(IoError(IsADirectory, p))
      else if q !in fs && !IsDirectory(fs, ParentOf(q)) then Err(IoError(NoEntry, p))
      else
        ResolveAfterUpdate(fs, p, MaxSymlinks, q, File(text));
        Ok(fs[q := File(text)])
  }

  /**
   * `FileUtils.ln_s(src, dest)` without `force`: when `dest` is a directory
   * the link goes inside it under the source's base name; an existing entry
   * at the link's place raises, as does a missing parent directory.
   */
  function Symlink(fs: FileSystem, src: Path, dest: Path): (r: Result<FileSystem, IoError>)
    ensures !IsDirectory(fs, dest) ==> (r.Ok? <==> dest !in fs && IsDirectory(fs, ParentOf(dest)))
    ensures !IsDirectory(fs, dest) && r.Ok? ==> r.value == fs[dest := Link(src)]
    ensures !IsDirectory(fs, dest) && dest in fs ==> r == Err(IoError(FileExists, dest))
    ensures IsDirectory(fs, dest) && r.Ok? ==>
      var inside := Physical(fs, dest).value + "/" + BaseName(src);
      inside !in fs && r.value == fs[inside := Link(src)]
    ensures r.Ok? ==> forall k :: k in r.value && !r.value[k].Link? ==> k in fs && fs[k] == r.value[k]
    ensures r.Ok? ==> forall k :: k in fs ==> k in r.value && r.value[k] == fs[k]
  {
    var place := if IsDirectory(fs, dest) then Physical(fs, dest).value + "/" + BaseName(src) else dest;
    if place in fs then Err(IoError(FileExists, place))
    else if !IsDirectory(fs, ParentOf(place)) then Err(IoError(NoEntry, place))
    else Ok(fs[place := Link(src)])
  }
}
