/**
  The source walker, `iter_source_files`: the files found under the source
  root along `<top>/SHORT/<day>/<hour>/<file>`, each level filtered by name.
  The source tree is a value: a directory's entries are a sequence, in
  whatever order the file system lists them.
*/
module SourceWalker {
  import opened Wrappers

  /** A directory entry: a regular file, or a directory with its entries. */
  datatype Node = File(name: string) | Dir(name: string, children: seq<Node>)

  /** One file the walker yields: the names along its path. */
  datatype SourceFile = SourceFile(top: string, day: string, hour: string, file: string)

  /** The literal part of the top-level glob pattern `DataTramSonTayQN*`. */
  const TopPrefix: string := "DataTramSonTayQN"

  /** The subdirectory every top-level directory must hold. */
  const ShortName: string := "SHORT"

  predicate IsDigit(c: char) {
    '0' <= c <= '9'
  }

  predicate AllDigits(s: string) {
    forall i :: 0 <= i < |s| ==> IsDigit(s[i])
  }

  /** Matches the glob `DataTramSonTayQN*`. */
  predicate IsTopName(s: string) {
    TopPrefix <= s
  }

  /** Matches `^\d{6}$` (a day, `yymmdd`). */
  predicate IsDayName(s: string) {
    |s| == 6 && AllDigits(s)
  }

  /** Matches `^\d{8}$` (an hour, `yymmddhh`). */
  predicate IsHourName(s: string) {
    |s| == 8 && AllDigits(s)
  }

  /** Matches `^\d{8}\.\d{2}$`. */
  predicate IsDataFileName(s: string) {
    |s| == 11 && AllDigits(s[..8]) && s[8] == '.' && AllDigits(s[9..])
  }

  /** Every name along the path passes its level's check. */
  predicate Accepted(f: SourceFile) {
    IsTopName(f.top) && IsDayName(f.day) && IsHourName(f.hour) && IsDataFileName(f.file)
  }

  /** The entry `name` in a directory (`dir / name`), if there is one. */
  function Lookup(children: seq<Node>, name: string): (r: Option<Node>)
    ensures r.Some? ==> r.value in children && r.value.name == name
    ensures r.None? ==> forall c :: c in children ==> c.name != name
  {
    if children == [] then None
    else if children[0].name == name then Some(children[0])
    else Lookup(children[1..], name)
  }

  /** The entries of `top/SHORT` when that is a directory (`short_dir.is_dir()`). */
  function ShortEntries(top: Node): (r: Option<seq<Node>>)
    ensures r.Some? ==> top.Dir? && Dir(ShortName, r.value) in top.children
    ensures top.Dir? && (forall c :: c in top.children ==> c.name != ShortName) ==> r.None?
  {
    if !top.Dir? then None
    else match Lookup(top.children, ShortName)
      case Some(Dir(_, days)) => Some(days)
      case _ => None
  }

  /** The data files of one hour directory. */
  function FromFiles(top: string, day: string, hour: string, files: seq<Node>): (r: seq<SourceFile>)
    ensures |r| <= |files|
    ensures forall f :: f in r ==> f.top == top && f.day == day && f.hour == hour && IsDataFileName(f.file)
  {
    if files == [] then []
    else
      (if files[0].File? && IsDataFileName(files[0].name) then [SourceFile(top, day, hour, files[0].name)] else [])
      + FromFiles(top, day, hour, files[1..])
  }

  /** The data files under the hour directories of one day directory. */
  function FromHours(top: string, day: string, hours: seq<Node>): (r: seq<SourceFile>)
    ensures forall f :: f in r ==> f.top == top && f.day == day && IsHourName(f.hour) && IsDataFileName(f.file)
  {
    if hours == [] then []
    else
      (if hours[0].Dir? && IsHourName(hours[0].name) then FromFiles(top, day, hours[0].name, hours[0].children) else [])
      + FromHours(top, day, hours[1..])
  }

  /** The data files under the day directories of one `SHORT` directory. */
  function FromDays(top: string, days: seq<Node>): (r: seq<SourceFile>)
    ensures forall f :: f in r ==> f.top == top && IsDayName(f.day) && IsHourName(f.hour) && IsDataFileName(f.file)
  {
    if days == [] then []
    else
      (if days[0].Dir? && IsDayName(days[0].name) then FromHours(top, days[0].name, days[0].children) else [])
      + FromDays(top, days[1..])
  }

  /** The data files under one top-level entry. */
  function FromTop(top: Node): (r: seq<SourceFile>)
    ensures forall f :: f in r ==> top.Dir? && f.top == top.name && Accepted(f)
  {
    if top.Dir? && IsTopName(top.name) then
      match ShortEntries(top)
      case Some(days) => FromDays(top.name, days)
      case None => []
    else []
  }

  /** `iter_source_files`: everything the walker yields, given the source root's entries. */
  function SourceFiles(root: seq<Node>): (r: seq<SourceFile>)
    ensures forall f :: f in r ==> Accepted(f) && exists top :: top in root && top.Dir? && top.name == f.top
  {
    if root == [] then [] else FromTop(root[0]) + SourceFiles(root[1..])
  }

  /**
    The file `f` is present in the tree: a top-level directory named `f.top`
    whose `SHORT` entry is a directory holding a directory `f.day`, which
    holds a directory `f.hour`, which holds a regular file `f.file`.
  */
  ghost predicate Present(root: seq<Node>, f: SourceFile) {
    exists top :: top in root && top.Dir? && top.name == f.top && InShort(top, f)
  }

  ghost predicate InShort(top: Node, f: SourceFile) {
    match ShortEntries(top)
    case None => false
    case Some(days) => exists d :: d in days && d.Dir? && d.name == f.day && InDay(d.children, f)
  }

  ghost predicate InDay(hours: seq<Node>, f: SourceFile) {
    exists h :: h in hours && h.Dir? && h.name == f.hour && File(f.file) in h.children
  }

  /** An hour directory yields exactly its regular files with a data-file name. */
  lemma {:induction false} FromFilesExact(top: string, day: string, hour: string, files: seq<Node>, f: SourceFile)
    ensures f in FromFiles(top, day, hour, files) <==>
              f.top == top && f.day == day && f.hour == hour && IsDataFileName(f.file) && File(f.file) in files
  {
    if files != [] {
      FromFilesExact(top, day, hour, files[1..], f);
      assert files == [files[0]] + files[1..];
    }
  }

  /** A day directory yields exactly the data files of its hour-named subdirectories. */
  lemma {:induction false} FromHoursExact(top: string, day: string, hours: seq<Node>, f: SourceFile)
    ensures f in FromHours(top, day, hours) <==>
              f.top == top && f.day == day && IsHourName(f.hour) && IsDataFileName(f.file) && InDay(hours, f)
  {
    if hours != [] {
      FromHoursExact(top, day, hours[1..], f);
      assert hours == [hours[0]] + hours[1..];
      if hours[0].Dir? {
        FromFilesExact(top, day, hours[0].name, hours[0].children, f);
      }
    }
  }

  /** A `SHORT` directory yields exactly the data files under its day-named subdirectories. */
  lemma {:induction false} FromDaysExact(top: string, days: seq<Node>, f: SourceFile)
    ensures f in FromDays(top, days) <==>
              f.top == top && IsDayName(f.day) && IsHourName(f.hour) && IsDataFileName(f.file)
              && exists d :: d in days && d.Dir? && d.name == f.day && InDay(d.children, f)
  {
    if days != [] {
      FromDaysExact(top, days[1..], f);
      assert days == [days[0]] + days[1..];
      if days[0].Dir? {
        FromHoursExact(top, days[0].name, days[0].children, f);
      }
    }
  }

  /** A top-level entry yields exactly the accepted files under its `SHORT` directory. */
  lemma FromTopExact(top: Node, f: SourceFile)
    ensures f in FromTop(top) <==> top.Dir? && top.name == f.top && Accepted(f) && InShort(top, f)
  {
    if top.Dir? && IsTopName(top.name) && ShortEntries(top).Some? {
      FromDaysExact(top.name, ShortEntries(top).value, f);
    }
  }

  /**
    The walker yields a file exactly when every name along its path passes
    its level's check and the file is present in the tree: nothing that
    fails a check is yielded and nothing that passes them all is missed.
  */
  lemma {:induction false} SourceFilesExact(root: seq<Node>, f: SourceFile)
    ensures f in SourceFiles(root) <==> Accepted(f) && Present(root, f)
  {
    if root != [] {
      SourceFilesExact(root[1..], f);
      FromTopExact(root[0], f);
      PresentSplit(root, f);
    }
  }

  /** A file is present under the first top-level entry or under one of the others. */
  lemma PresentSplit(root: seq<Node>, f: SourceFile)
    requires root != []
    ensures Present(root, f) <==>
              (root[0].Dir? && root[0].name == f.top && InShort(root[0], f)) || Present(root[1..], f)
  {
    assert root == [root[0]] + root[1..];
    if Present(root, f) {
      var top :| top in root && top.Dir? && top.name == f.top && InShort(top, f);
      if top != root[0] {
        assert top in root[1..];
      }
    }
  }

  /** No two entries of a directory share a name. */
  predicate DistinctNames(children: seq<Node>) {
    forall i, j :: 0 <= i < j < |children| ==> children[i].name != children[j].name
  }

  /** A tree as a file system has it: names are unique within every directory. */
  predicate WellFormed(n: Node) {
    match n
    case File(_) => true
    case Dir(_, children) => DistinctNames(children) && forall c :: c in children ==> WellFormed(c)
  }

  predicate NoDuplicates<T(==)>(s: seq<T>) {
    forall i, j :: 0 <= i < j < |s| ==> s[i] != s[j]
  }

  lemma DisjointConcat<T>(a: seq<T>, b: seq<T>)
    requires NoDuplicates(a) && NoDuplicates(b)
    requires forall x :: x in a ==> x !in b
    ensures NoDuplicates(a + b)
  {
    forall i, j | 0 <= i < j < |a + b| ensures (a + b)[i] != (a + b)[j] {
      if i < |a| <= j {
        assert (a + b)[j] in b;
      }
    }
  }

  /** The entries after the first one all have other names than the first. */
  lemma RestNamesDiffer(children: seq<Node>)
    requires children != [] && DistinctNames(children)
    ensures forall c :: c in children[1..] ==> c.name != children[0].name
  {
    forall c | c in children[1..] ensures c.name != children[0].name {
      var k :| 0 <= k < |children[1..]| && children[1..][k] == c;
      assert children[k + 1] == c;
    }
  }

  /** In a directory with distinct names, looking an entry's name up finds that entry. */
  lemma {:induction false} LookupFinds(children: seq<Node>, n: Node)
    requires DistinctNames(children) && n in children
    ensures Lookup(children, n.name) == Some(n)
  {
    if children[0] != n {
      RestNamesDiffer(children);
      assert n in children[1..];
      assert DistinctNames(children[1..]) by {
        forall i, j | 0 <= i < j < |children[1..]| ensures children[1..][i].name != children[1..][j].name {
          assert children[1..][i] == children[i + 1] && children[1..][j] == children[j + 1];
        }
      }
      LookupFinds(children[1..], n);
    }
  }

  /**
    A top-level directory whose `SHORT` entry is a directory gives that
    directory's entries (`short_dir.iterdir()`).
  */
  lemma ShortEntriesFinds(top: Node, days: seq<Node>)
    requires top.Dir? && DistinctNames(top.children) && Dir(ShortName, days) in top.children
    ensures ShortEntries(top) == Some(days)
  {
    LookupFinds(top.children, Dir(ShortName, days));
  }

  lemma {:induction false} FromFilesNoDuplicates(top: string, day: string, hour: string, files: seq<Node>)
    requires DistinctNames(files)
    ensures NoDuplicates(FromFiles(top, day, hour, files))
  {
    if files != [] {
      var rest := files[1..];
      FromFilesNoDuplicates(top, day, hour, rest);
      RestNamesDiffer(files);
      forall f | f in FromFiles(top, day, hour, rest) ensures f.file != files[0].name {
        FromFilesExact(top, day, hour, rest, f);
      }
      var head := if files[0].File? && IsDataFileName(files[0].name) then [SourceFile(top, day, hour, files[0].name)] else [];
      DisjointConcat(head, FromFiles(top, day, hour, rest));
    }
  }

  lemma {:induction false} FromHoursNoDuplicates(top: string, day: string, hours: seq<Node>)
    requires DistinctNames(hours) && forall h :: h in hours ==> WellFormed(h)
    ensures NoDuplicates(FromHours(top, day, hours))
  {
    if hours != [] {
      var rest := hours[1..];
      FromHoursNoDuplicates(top, day, rest);
      RestNamesDiffer(hours);
      forall f | f in FromHours(top, day, rest) ensures f.hour != hours[0].name {
        FromHoursExact(top, day, rest, f);
      }
      var head := if hours[0].Dir? && IsHourName(hours[0].name) then FromFiles(top, day, hours[0].name, hours[0].children) else [];
      if hours[0].Dir? {
        assert hours[0] in hours;
        FromFilesNoDuplicates(top, day, hours[0].name, hours[0].children);
        forall f | f in head ensures f.hour == hours[0].name {
          FromFilesExact(top, day, hours[0].name, hours[0].children, f);
        }
      }
      DisjointConcat(head, FromHours(top, day, rest));
    }
  }

  lemma {:induction false} FromDaysNoDuplicates(top: string, days: seq<Node>)
    requires DistinctNames(days) && forall d :: d in days ==> WellFormed(d)
    ensures NoDuplicates(FromDays(top, days))
  {
    if days != [] {
      var rest := days[1..];
      FromDaysNoDuplicates(top, rest);
      RestNamesDiffer(days);
      forall f | f in FromDays(top, rest) ensures f.day != days[0].name {
        FromDaysExact(top, rest, f);
      }
      var head := if days[0].Dir? && IsDayName(days[0].name) then FromHours(top, days[0].name, days[0].children) else [];
      if days[0].Dir? {
        assert days[0] in days;
        FromHoursNoDuplicates(top, days[0].name, days[0].children);
        forall f | f in head ensures f.day == days[0].name {
          FromHoursExact(top, days[0].name, days[0].children, f);
        }
      }
      DisjointConcat(head, FromDays(top, rest));
    }
  }

  lemma FromTopNoDuplicates(top: Node)
    requires WellFormed(top)
    ensures NoDuplicates(FromTop(top))
  {
    if top.Dir? && IsTopName(top.name) && ShortEntries(top).Some? {
      var short := Lookup(top.children, ShortName).value;
      assert WellFormed(short);
      FromDaysNoDuplicates(top.name, ShortEntries(top).value);
    }
  }

  /**
    In a well-formed tree the walker yields no file twice; with
    `SourceFilesExact`, every accepted present file is yielded exactly once.
  */
  lemma {:induction false} SourceFilesNoDuplicates(root: seq<Node>)
    requires DistinctNames(root) && forall n :: n in root ==> WellFormed(n)
    ensures NoDuplicates(SourceFiles(root))
  {
    if root != [] {
      var rest := root[1..];
      SourceFilesNoDuplicates(rest);
      RestNamesDiffer(root);
      forall f | f in SourceFiles(rest) ensures f.top != root[0].name {
        SourceFilesExact(rest, f);
      }
      FromTopNoDuplicates(root[0]);
      forall f | f in FromTop(root[0]) ensures f.top == root[0].name {
        FromTopExact(root[0], f);
      }
      DisjointConcat(FromTop(root[0]), SourceFiles(rest));
    }
  }
}
