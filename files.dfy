/**
 * The file system the report writers touch, as a map from path to CSV
 * content, and `pathlib` naming: `Path.stem`, `Path.with_name`.
 */
module Files {
  import opened Text

  /** A file path: its directory and its final component (`Path.name`). */
  datatype Path = Path(dir: string, name: string)

  /** The rows of a CSV file, each a sequence of fields. */
  type Csv = seq<seq<string>>

  /** `s.rfind(c)`: the last index holding `c`, or -1. */
  function RFind(s: string, c: char): (r: int)
    ensures -1 <= r < |s|
    ensures r >= 0 ==> s[r] == c
    ensures forall k :: r < k < |s| ==> s[k] != c
    decreases |s|
  {
    if |s| == 0 then -1
    else if s[|s| - 1] == c then |s| - 1
    else RFind(s[..|s| - 1], c)
  }

  /** `PurePath.stem`: the name without its suffix, where a suffix is a last dot neither first nor last. */
  function Stem(name: string): string {
    var i := RFind(name, '.');
    if 0 < i < |name| - 1 then name[..i] else name
  }

  /** `raw_path.with_name(f"{raw_path.stem}_CLEAN.csv")`; `with_name` refuses a path with an empty name. */
  function CleanPath(raw: Path): (clean: Path)
    requires raw.name != ""
    ensures clean.dir == raw.dir
    ensures EndsWith(clean.name, "_CLEAN.csv")
  {
    Path(raw.dir, Stem(raw.name) + "_CLEAN.csv")
  }

  /** The clean file never overwrites the raw file it is derived from. */
  lemma CleanPathDiffers(raw: Path)
    requires raw.name != ""
    ensures CleanPath(raw) != raw
  {
    var n := raw.name;
    var i := RFind(n, '.');
    if 0 < i < |n| - 1 {
      assert CleanPath(raw).name[i] == '_' != n[i];
    } else {
      assert |CleanPath(raw).name| > |n|;
    }
  }

  /** For a name `<base>.csv`, the clean file is `<base>_CLEAN.csv` beside it. */
  lemma CleanPathOfCsv(dir: string, base: string)
    requires base != ""
    ensures CleanPath(Path(dir, base + ".csv")) == Path(dir, base + "_CLEAN.csv")
  {
    var n := base + ".csv";
    assert n[|base|] == '.' && n[|base| + 1..] == "csv";
    var i := RFind(n, '.');
    assert i == |base|;
    assert n[..i] == base;
  }

  /** One change to the file system, as the journal records it. */
  datatype FsOp = WriteFile(path: Path, content: Csv) | Unlink(path: Path)

  function ApplyOp(files: map<Path, Csv>, op: FsOp): map<Path, Csv> {
    match op
    case WriteFile(p, c) => files[p := c]
    case Unlink(p) => files - {p}
  }

  function ApplyOps(files: map<Path, Csv>, ops: seq<FsOp>): map<Path, Csv>
    decreases |ops|
  {
    if ops == [] then files else ApplyOps(ApplyOp(files, ops[0]), ops[1..])
  }

  lemma {:induction false} ApplyOpsConcat(files: map<Path, Csv>, a: seq<FsOp>, b: seq<FsOp>)
    ensures ApplyOps(files, a + b) == ApplyOps(ApplyOps(files, a), b)
    decreases |a|
  {
    if a == [] {
      assert a + b == b;
    } else {
      assert (a + b)[0] == a[0] && (a + b)[1..] == a[1..] + b;
      ApplyOpsConcat(ApplyOp(files, a[0]), a[1..], b);
    }
  }

  /** A directory tree the writers change in place, with the journal of every change made to it. */
  class FileStore {
    var files: map<Path, Csv>
    var journal: seq<FsOp>
    ghost var origin: map<Path, Csv>

    /** The current files are the original ones with the journal applied. */
    ghost predicate Valid()
      reads this
    {
      files == ApplyOps(origin, journal)
    }

    constructor (initial: map<Path, Csv>)
      ensures Valid()
      ensures files == initial && journal == [] && origin == initial
    {
      files := initial;
      journal := [];
      origin := initial;
    }

    /** `open(p, "w")`, then `writer.writerow(header)` and `writer.writerows(rows)`. */
    method WriteCsv(p: Path, header: seq<string>, rows: Csv)
      requires Valid()
      modifies this
      ensures Valid() && origin == old(origin)
      ensures journal == old(journal) + [WriteFile(p, [header] + rows)]
      ensures files == old(files)[p := [header] + rows]
    {
      ApplyOpsConcat(origin, journal, [WriteFile(p, [header] + rows)]);
      files := files[p := [header] + rows];
      journal := journal + [WriteFile(p, [header] + rows)];
    }

    /** `p.unlink(missing_ok=True)`. */
    method Unlink(p: Path)
      requires Valid()
      modifies this
      ensures Valid() && origin == old(origin)
      ensures journal == old(journal) + [FsOp.Unlink(p)]
      ensures files == old(files) - {p}
    {
      ApplyOpsConcat(origin, journal, [FsOp.Unlink(p)]);
      files := files - {p};
      journal := journal + [FsOp.Unlink(p)];
    }
  }
}
