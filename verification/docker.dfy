/** Container Inspector: `parse_docker_images`, which turns the captured
    stdout of `docker images` into a table whose headers are the tokens of
    the first line. Running docker, and `get_docker_info`, which returns
    `docker inspect` output unparsed, are not part of this model. */
module ContainerInspector {
  import opened Tables
  import opened TextOps

  /** `parse_docker_images(output)`: the tokens of the first line are the
      headers and every later line becomes the row of its tokens. Python
      indexes `lines[0]` unchecked, so text without any line raises IndexError. */
  function ParseDockerImages(output: string): (r: Result<Table<seq<string>>>)
    ensures r.IndexError? <==> output == ""
    ensures r.Ok? ==> var lines := SplitLines(output);
      && r.value.headers == Words(lines[0])
      && |r.value.rows| == |lines| - 1
      && forall k | 0 <= k < |r.value.rows| :: r.value.rows[k] == Words(lines[k + 1])
  {
    var lines := SplitLines(output);
    if lines == [] then IndexError
    else
      var rest := lines[1..];
      Ok(Table(Words(lines[0]), seq(|rest|, k requires 0 <= k < |rest| => Words(rest[k]))))
  }

  /** An empty line in the listing gives an empty row. */
  lemma EmptyLineGivesEmptyRow(output: string, k: nat)
    requires ParseDockerImages(output).Ok?
    requires k < |ParseDockerImages(output).value.rows|
    requires NoVisibleText(SplitLines(output)[k + 1])
    ensures ParseDockerImages(output).value.rows[k] == []
  {
    WordsOfBlank(SplitLines(output)[k + 1]);
  }

  /** A listing laid out in columns, with any whitespace padding, whose
      header and rows are tokens and whose last line is not blank, parses
      back into that header and those rows. A row with no cells is a blank
      line, which parses back into no cells. */
  lemma DockerImagesRoundTrip(headers: seq<string>, rows: seq<seq<string>>, pads: seq<seq<string>>)
    requires headers != [] && forall h | h in headers :: IsToken(h)
    requires forall row | row in rows :: forall c | c in row :: IsToken(c)
    requires rows != [] ==> rows[|rows| - 1] != []
    requires LaidOut(headers, rows, pads)
    ensures ParseDockerImages(JoinLines(Listing(headers, rows, pads))) == Ok(Table(headers, rows))
  {
    var lines := Listing(headers, rows, pads);
    forall k | 0 <= k < |lines|
      ensures '\n' !in lines[k]
      ensures k == |lines| - 1 ==> lines[k] != ""
      ensures Words(lines[k]) == if k == 0 then headers else rows[k - 1]
    {
      var cells := if k == 0 then headers else rows[k - 1];
      assert cells == headers || cells in rows;
      PaddedIsOneLine(cells, pads[k]);
      WordsOfPadded(cells, pads[k]);
    }
    SplitJoinLines(lines);
    var r := ParseDockerImages(JoinLines(lines));
    assert r.Ok? && r.value.headers == headers;
    assert r.value.rows == rows;
  }

  /** Column padding for a listing: `pads[0]` lays out the header line and
      `pads[k + 1]` the line of row `k`. */
  predicate LaidOut(headers: seq<string>, rows: seq<seq<string>>, pads: seq<seq<string>>) {
    && |pads| == |rows| + 1
    && PadsOk(headers, pads[0])
    && forall k | 0 <= k < |rows| :: PadsOk(rows[k], pads[k + 1])
  }

  /** The lines of a `docker images` listing: the header line, then one line
      per row, each laid out in columns by its padding. */
  function Listing(headers: seq<string>, rows: seq<seq<string>>, pads: seq<seq<string>>): (lines: seq<string>)
    requires LaidOut(headers, rows, pads)
    ensures |lines| == |rows| + 1
  {
    [Padded(headers, pads[0])] + seq(|rows|, k requires 0 <= k < |rows| => Padded(rows[k], pads[k + 1]))
  }
}
