/**
  The documented runs of the copy script, stated as lemmas over the model:
  one station directory with one data file, routed by a one-row mapping.
*/
module Scenarios {
  import opened Wrappers
  import opened Text
  import opened OrderedMaps
  import opened MappingLoader
  import opened PatternMatcher
  import opened SourceWalker
  import opened CopyExecutor

  /** `DataTramSonTayQNAlpha/SHORT/210101/21010112/21010112.00` under the source root. */
  function AlphaTree(): seq<Node> {
    [Dir("DataTramSonTayQNAlpha", [Dir("SHORT", [Dir("210101", [Dir("21010112", [File("21010112.00")])])])])]
  }

  function AlphaFile(): SourceFile {
    SourceFile("DataTramSonTayQNAlpha", "210101", "21010112", "21010112.00")
  }

  /** The walker yields the one data file of the tree. */
  lemma AlphaTreeYieldsItsFile()
    ensures SourceFiles(AlphaTree()) == [AlphaFile()]
  {
    AlphaDayYieldsItsFile();
    var top := AlphaTree()[0];
    assert ShortEntries(top) == Some(top.children[0].children);
    assert FromTop(top) == [AlphaFile()];
  }

  /** The day directory `210101` of the tree yields its one data file. */
  lemma AlphaDayYieldsItsFile()
    ensures FromDays("DataTramSonTayQNAlpha", [Dir("210101", [Dir("21010112", [File("21010112.00")])])]) == [AlphaFile()]
  {
    var f := AlphaFile();
    var hour := Dir("21010112", [File("21010112.00")]);
    assert IsDataFileName("21010112.00");
    assert FromFiles(f.top, f.day, f.hour, hour.children) == [f];
    assert FromHours(f.top, f.day, [hour]) == [f];
  }

  /** A string that neither starts nor ends with whitespace is its own strip. */
  lemma StripUnchanged(s: string)
    requires s != [] && !IsSpace(s[0]) && !IsSpace(s[|s| - 1])
    ensures Strip(s) == s
  {
    assert LeadingSpace(s) == 0;
    assert s[0..] == s;
    assert TrailingSpace(s) == 0;
  }

  /** A one-row spreadsheet whose cells need no trimming loads as that one entry. */
  lemma OneRowLoads(key: string, value: string)
    requires key != [] && !IsSpace(key[0]) && !IsSpace(key[|key| - 1])
    requires value != [] && !IsSpace(value[0]) && !IsSpace(value[|value| - 1])
    ensures Load([[Some(key), Some(value)]]) == [Entry(key, value)]
  {
    StripUnchanged(key);
    StripUnchanged(value);
    var row: Row := [Some(key), Some(value)];
    assert RowEntry(row) == Some(Entry(key, value));
    var rows: seq<Row> := [row];
    assert rows[..0] == [];
    assert Load(rows) == Put([], key, value);
    assert Find<string, string>([], key) == None;
  }

  /** The one-row spreadsheet `DataTramSonTayQNAlpha* | SiteA` loads as that one entry. */
  lemma AlphaRowLoads()
    ensures Load([[Some("DataTramSonTayQNAlpha*"), Some("SiteA")]]) == [Entry("DataTramSonTayQNAlpha*", "SiteA")]
  {
    OneRowLoads("DataTramSonTayQNAlpha*", "SiteA");
  }

  /** Both trailing-star keys of the scenarios strip to their literal part. */
  lemma ScenarioKeyPrefixes()
    ensures KeyPrefix("DataTramSonTayQNAlpha*") == "DataTramSonTayQNAlpha"
    ensures KeyPrefix("DataTramSonTayQN*") == "DataTramSonTayQN"
  {
    var a := "DataTramSonTayQNAlpha*";
    assert a[..|a| - 1] == "DataTramSonTayQNAlpha";
    var b := "DataTramSonTayQN*";
    assert b[..|b| - 1] == "DataTramSonTayQN";
  }

  /** The longer prefix `DataTramSonTayQNAlpha` wins over `DataTramSonTayQN`, in either order. */
  lemma LongerPrefixWins()
    ensures Match("DataTramSonTayQNAlpha01",
                  [Entry("DataTramSonTayQN*", "Generic"), Entry("DataTramSonTayQNAlpha*", "SiteA")]) == Some("SiteA")
    ensures Match("DataTramSonTayQNAlpha01",
                  [Entry("DataTramSonTayQNAlpha*", "SiteA"), Entry("DataTramSonTayQN*", "Generic")]) == Some("SiteA")
  {
    ScenarioKeyPrefixes();
    var name := "DataTramSonTayQNAlpha01";
    var m := [Entry("DataTramSonTayQN*", "Generic"), Entry("DataTramSonTayQNAlpha*", "SiteA")];
    assert Candidate(name, m[0]) && Candidate(name, m[1]);
    assert PrefixLength(m[0]) < PrefixLength(m[1]);
    assert IsBest(name, m, 1);
    var r := [m[1], m[0]];
    assert Candidate(name, r[0]) && Candidate(name, r[1]);
    assert IsBest(name, r, 0);
  }

  /**
    A normal run copies the file to `D/SiteA/210101/21010112/21010112.00`
    and counts one.
  */
  lemma AlphaIsCopied(sourceRoot: Path, d: Path)
    ensures
      var cfg := Config(sourceRoot, d, Load([[Some("DataTramSonTayQNAlpha*"), Some("SiteA")]]), false, false);
      Run(cfg, Outcome(0, map[]), SourceFiles(AlphaTree()))
      == Outcome(1, map[d + ["SiteA", "210101", "21010112", "21010112.00"] :=
                        sourceRoot + ["DataTramSonTayQNAlpha", "SHORT", "210101", "21010112", "21010112.00"]])
  {
    AlphaRowLoads();
    AlphaTreeYieldsItsFile();
    ScenarioKeyPrefixes();
    var cfg := Config(sourceRoot, d, [Entry("DataTramSonTayQNAlpha*", "SiteA")], false, false);
    var f := AlphaFile();
    assert Candidate(f.top, cfg.mapping[0]);
    assert Match(f.top, cfg.mapping) == Some("SiteA");
    assert Route(cfg, f) == Some("SiteA");
    assert [f][..0] == [];
    assert Run(cfg, Outcome(0, map[]), [f]) == Step(cfg, Outcome(0, map[]), f);
  }

  /** With only an unrelated prefix in the mapping, the file is skipped and nothing is counted. */
  lemma UnrelatedMappingCopiesNothing(sourceRoot: Path, d: Path)
    ensures
      var cfg := Config(sourceRoot, d, [Entry("SomewhereElse*", "SiteB")], false, false);
      Run(cfg, Outcome(0, map[]), SourceFiles(AlphaTree())) == Outcome(0, map[])
  {
    AlphaTreeYieldsItsFile();
    var cfg := Config(sourceRoot, d, [Entry("SomewhereElse*", "SiteB")], false, false);
    var f := AlphaFile();
    var k := "SomewhereElse*";
    assert k[..|k| - 1] == "SomewhereElse";
    assert KeyPrefix(k) == "SomewhereElse";
    assert !Candidate(f.top, cfg.mapping[0]);
    assert Route(cfg, f) == None;
    assert [f][..0] == [];
  }
}
