/** The geodetic/readme.txt text that measures_update writes after a
    successful extraction, and a reader for it. The reader is not
    casaconfig's own (get_data_info is not part of this model): it is an
    independent definition that the round trip checks the written text
    against. */
module Readme {
  import opened Errors

  const Header := "# measures data populated by casaconfig"
  const VersionKey := "version : "
  const DateKey := "date : "

  /** The three lines written at the commit point: the fixed header, the
      installed version and the install date (no trailing newline). */
  function ReadmeText(version: string, date: string): string {
    Header + "\n" + VersionKey + version + "\n" + DateKey + date
  }

  /** Python's `text.split('\n')`. */
  function Lines(text: string): (r: seq<string>)
    ensures |r| >= 1
  {
    if text == [] then [[]]
    else if text[0] == '\n' then [[]] + Lines(text[1..])
    else var t := Lines(text[1..]); [[text[0]] + t[0]] + t[1..]
  }

  lemma {:induction false} LinesOfLine(a: string)
    requires '\n' !in a
    ensures Lines(a) == [a]
  {
    if a != [] {
      LinesOfLine(a[1..]);
      assert a == [a[0]] + a[1..];
    }
  }

  lemma {:induction false} LinesJoin(a: string, b: string)
    requires '\n' !in a
    ensures Lines(a + "\n" + b) == [a] + Lines(b)
  {
    if a == [] {
      assert a + "\n" + b == "\n" + b;
      assert ("\n" + b)[1..] == b;
    } else {
      LinesJoin(a[1..], b);
      assert (a + "\n" + b)[1..] == a[1..] + "\n" + b;
      assert a == [a[0]] + a[1..];
    }
  }

  /** The value of a `key` line, if the line is one. */
  function Field(line: string, key: string): (r: Option<string>)
    ensures r.Some? ==> line == key + r.value
  {
    if |key| <= |line| && line[..|key|] == key then Some(line[|key|..]) else None
  }

  /** Reads a readme text back into its version and date; None unless it
      has exactly the three expected lines. An independent reader, used only
      for the round trip. */
  function ParseReadme(text: string): (r: Option<(string, string)>)
    ensures r.Some? ==> |Lines(text)| == 3 && Lines(text)[0] == Header
  {
    var ls := Lines(text);
    if |ls| == 3 && ls[0] == Header && Field(ls[1], VersionKey).Some? && Field(ls[2], DateKey).Some?
    then Some((Field(ls[1], VersionKey).value, Field(ls[2], DateKey).value))
    else None
  }

  /** The written readme has exactly three lines: header, version and date. */
  lemma ReadmeLines(version: string, date: string)
    requires '\n' !in version && '\n' !in date
    ensures Lines(ReadmeText(version, date)) == [Header, VersionKey + version, DateKey + date]
  {
    assert '\n' !in VersionKey + version;
    assert '\n' !in DateKey + date;
    LinesOfLine(DateKey + date);
    LinesJoin(VersionKey + version, DateKey + date);
    assert Header + "\n" + VersionKey + version + "\n" + DateKey + date
        == Header + "\n" + ((VersionKey + version) + "\n" + (DateKey + date));
    LinesJoin(Header, (VersionKey + version) + "\n" + (DateKey + date));
  }

  /** Writing a readme and reading it back yields the same version and date. */
  lemma ReadmeRoundTrip(version: string, date: string)
    requires '\n' !in version && '\n' !in date
    ensures ParseReadme(ReadmeText(version, date)) == Some((version, date))
  {
    ReadmeLines(version, date);
    assert (VersionKey + version)[..|VersionKey|] == VersionKey;
    assert (VersionKey + version)[|VersionKey|..] == version;
    assert (DateKey + date)[..|DateKey|] == DateKey;
    assert (DateKey + date)[|DateKey|..] == date;
  }
}
