/** The process facts and the file-system view both resource searches read:
    `sys.frozen`, `sys._MEIPASS`, the executable's directory, the script's
    directory, the working directory, and which paths exist. */
module Paths {
  import opened Base

  /** What the two searches read from the running process.
      `exeDir` is `os.path.dirname(sys.executable)`; `scriptDir` is
      `os.path.dirname(__file__)`, or `None` when `__file__` is undefined;
      `meipass` is `getattr(sys, '_MEIPASS', None)`. */
  datatype Env = Env(
    frozen: bool,
    meipass: Option<string>,
    exeDir: string,
    scriptDir: Option<string>,
    cwd: string)

  /** Python truthiness of an optional string: present and non-empty. */
  predicate Truthy(o: Option<string>) {
    o.Some? && o.value != ""
  }

  predicate IsAbs(p: string) {
    |p| > 0 && p[0] == '/'
  }

  /** `os.path.join(dir, name)` (POSIX): an absolute `name` wins; otherwise a
      separator is inserted unless `dir` is empty or already ends with one. */
  function Join(dir: string, name: string): (r: string)
    ensures |r| >= |name|
    ensures IsAbs(dir) ==> IsAbs(r)
  {
    if IsAbs(name) then name
    else if dir == [] || dir[|dir| - 1] == '/' then dir + name
    else dir + "/" + name
  }

  /** A relative path names the file below the working directory. */
  function Resolve(cwd: string, p: string): string {
    if IsAbs(p) then p else Join(cwd, p)
  }

  /** `os.path.exists(p)`: `files` holds the absolute paths that exist;
      the empty path never exists. */
  predicate Exists(files: set<string>, cwd: string, p: string) {
    p != "" && Resolve(cwd, p) in files
  }

  /** Candidate directory `d` is accepted: it is non-empty and `name`
      exists inside it. */
  predicate Hit(files: set<string>, cwd: string, d: string, name: string) {
    d != "" && Exists(files, cwd, Join(d, name))
  }

  ghost predicate NoHit(cands: seq<string>, files: set<string>, cwd: string, name: string) {
    forall d :: d in cands ==> !Hit(files, cwd, d, name)
  }

  /** `cands[i]` is the first accepted candidate. */
  ghost predicate FirstHitAt(cands: seq<string>, files: set<string>, cwd: string, name: string, i: int) {
    0 <= i < |cands| && Hit(files, cwd, cands[i], name)
    && forall j :: 0 <= j < i ==> !Hit(files, cwd, cands[j], name)
  }

  /** A scan that rejected every candidate found no first accepted one. */
  lemma ScanExhausted(cands: seq<string>, files: set<string>, cwd: string, name: string)
    requires forall j :: 0 <= j < |cands| ==> !Hit(files, cwd, cands[j], name)
    ensures NoHit(cands, files, cwd, name)
    ensures forall i :: !FirstHitAt(cands, files, cwd, name, i)
  {
  }

  /** The first accepted candidate is the only one satisfying `FirstHitAt`. */
  lemma {:induction false} ScanStopped(cands: seq<string>, files: set<string>, cwd: string, name: string, i: int)
    requires FirstHitAt(cands, files, cwd, name, i)
    ensures !NoHit(cands, files, cwd, name)
    ensures forall k :: FirstHitAt(cands, files, cwd, name, k) ==> k == i
  {
    assert cands[i] in cands;
  }

  /** The scan both searches run over their candidate directories: the
      joined path of the first non-empty directory under which `name`
      exists, or `None`. */
  method FirstExisting(cands: seq<string>, files: set<string>, cwd: string, name: string)
    returns (r: Option<string>)
    ensures forall i :: FirstHitAt(cands, files, cwd, name, i) ==> r == Some(Join(cands[i], name))
    ensures r.None? <==> NoHit(cands, files, cwd, name)
    ensures r.Some? ==> Exists(files, cwd, r.value)
  {
    for i := 0 to |cands|
      invariant forall j :: 0 <= j < i ==> !Hit(files, cwd, cands[j], name)
    {
      var d := cands[i];
      if d == "" {
        continue;
      }
      var p := Join(d, name);
      if Exists(files, cwd, p) {
        ScanStopped(cands, files, cwd, name, i);
        return Some(p);
      }
    }
    ScanExhausted(cands, files, cwd, name);
    return None;
  }
}
