/** User Session Inspector: `parse_users` over the captured stdout of
    `query user`, and `parse_user_info` over that of `net user NAME`.
    Running those commands is not part of this model. */
module SessionInspector {
  import opened Tables
  import opened TextOps
  import opened Seqs

  const UserHeaders: seq<string> := ["Username", "Login ID"]
  const FieldHeaders: seq<string> := ["Field", "Value"]

  /** `parse_users(output)`: the first line is dropped as a header and every
      later line becomes the row of its first two tokens (all of them when the
      line has fewer, so a one-token line gives a one-cell row and a blank
      line an empty row); no line is filtered out. */
  function ParseUsers(output: string): (t: Table<seq<string>>)
    ensures t.headers == UserHeaders
    ensures var lines := SplitLines(output);
      && |t.rows| == (if lines == [] then 0 else |lines| - 1)
      && forall k | 0 <= k < |t.rows| ::
           && t.rows[k] <= Words(lines[k + 1])
           && |t.rows[k]| == if |Words(lines[k + 1])| < 2 then |Words(lines[k + 1])| else 2
  {
    var lines := SplitLines(output);
    var rest := if lines == [] then [] else lines[1..];
    Table(UserHeaders, seq(|rest|, k requires 0 <= k < |rest| => Take(Words(rest[k]), 2)))
  }

  /** A logged-in session as `query user` lists it: user name, then the
      second column, then whatever other columns follow, laid out in columns
      by the whitespace in `pads`. */
  datatype Session = Session(user: string, id: string, more: seq<string>, pads: seq<string>)

  function Cells(s: Session): seq<string> {
    [s.user, s.id] + s.more
  }

  predicate WellFormed(s: Session) {
    && IsToken(s.user) && IsToken(s.id) && (forall c | c in s.more :: IsToken(c))
    && PadsOk(Cells(s), s.pads)
  }

  function SessionLine(s: Session): string
    requires WellFormed(s)
  {
    Padded(Cells(s), s.pads)
  }

  /** The lines of a `query user` listing below its header, one per session. */
  function SessionLines(sessions: seq<Session>): seq<string>
    requires forall s | s in sessions :: WellFormed(s)
  {
    seq(|sessions|, k requires 0 <= k < |sessions| => assert sessions[k] in sessions; SessionLine(sessions[k]))
  }

  /** The rows `parse_users` should give for those sessions. */
  function SessionRows(sessions: seq<Session>): seq<seq<string>> {
    seq(|sessions|, k requires 0 <= k < |sessions| => [sessions[k].user, sessions[k].id])
  }

  /** Under any header line, a listing of well-formed sessions parses into one
      `[user, id]` row per session, in order, however its columns are
      padded. */
  lemma UsersRoundTrip(header: string, sessions: seq<Session>)
    requires '\n' !in header
    requires forall s | s in sessions :: WellFormed(s)
    ensures ParseUsers(JoinLines([header] + SessionLines(sessions))).rows == SessionRows(sessions)
  {
    var body := SessionLines(sessions);
    if sessions == [] {
      assert JoinLines([header] + body) == header;
    } else {
      ListingSplits(header, sessions);
      assert ([header] + body)[1..] == body;
      forall k | 0 <= k < |sessions|
        ensures Take(Words(body[k]), 2) == [sessions[k].user, sessions[k].id]
      {
        assert sessions[k] in sessions;
        SessionRow(sessions[k]);
      }
    }
  }

  /** Splitting the printed listing gives back its lines. */
  lemma ListingSplits(header: string, sessions: seq<Session>)
    requires '\n' !in header && sessions != []
    requires forall s | s in sessions :: WellFormed(s)
    ensures SplitLines(JoinLines([header] + SessionLines(sessions))) == [header] + SessionLines(sessions)
  {
    var body := SessionLines(sessions);
    var lines := [header] + body;
    forall k | 0 <= k < |sessions|
      ensures '\n' !in body[k] && (k == |sessions| - 1 ==> body[k] != "")
    {
      assert sessions[k] in sessions;
      var cells := Cells(sessions[k]);
      assert forall c | c in cells :: c == cells[0] || c == cells[1] || c in sessions[k].more;
      PaddedIsOneLine(cells, sessions[k].pads);
    }
    assert forall l | l in lines :: l == header || l in body;
    SplitJoinLines(lines);
  }

  /** A session's line splits into its cells, the first two being the user
      and the id. */
  lemma SessionRow(s: Session)
    requires WellFormed(s)
    ensures Take(Words(SessionLine(s)), 2) == [s.user, s.id]
  {
    var cells := Cells(s);
    assert forall c | c in cells :: c == cells[0] || c == cells[1] || c in s.more;
    WordsOfPadded(cells, s.pads);
  }

  predicate HasColon(line: string) {
    ':' in line
  }

  /** `parse_user_info(output)`: every line containing ':' becomes a row of
      two cells, the text before its first ':' and the text after it; other
      lines are dropped. Joining a row's cells with ':' gives back its line,
      and the rows follow the order of their lines. */
  function ParseUserInfo(output: string): (t: Table<seq<string>>)
    ensures t.headers == FieldHeaders
    ensures var kept := Filter(SplitLines(output), HasColon);
      && |t.rows| == |kept|
      && forall k | 0 <= k < |t.rows| ::
           && |t.rows[k]| == 2
           && ':' !in t.rows[k][0]
           && t.rows[k][0] + ":" + t.rows[k][1] == kept[k]
  {
    var kept := Filter(SplitLines(output), HasColon);
    Table(FieldHeaders, seq(|kept|, k requires 0 <= k < |kept| => SplitOnce(kept[k], ':')))
  }

  /** One line of a `net user` detail listing. */
  datatype Field = Field(name: string, value: string)

  function FieldLines(fields: seq<Field>): seq<string> {
    seq(|fields|, k requires 0 <= k < |fields| => fields[k].name + ":" + fields[k].value)
  }

  function FieldRows(fields: seq<Field>): seq<seq<string>> {
    seq(|fields|, k requires 0 <= k < |fields| => [fields[k].name, fields[k].value])
  }

  /** A detail listing whose lines with a ':' are `name:value` lines, any
      other lines mixed in, parses into one `[name, value]` row per field, in
      order, whenever no name contains ':' and no line contains a line break. */
  lemma UserInfoRoundTrip(lines: seq<string>, fields: seq<Field>)
    requires forall l | l in lines :: '\n' !in l
    requires lines == [] || lines[|lines| - 1] != ""
    requires Filter(lines, HasColon) == FieldLines(fields)
    requires forall f | f in fields :: ':' !in f.name
    ensures ParseUserInfo(JoinLines(lines)).rows == FieldRows(fields)
  {
    SplitJoinLines(lines);
    UserInfoRowsAre(JoinLines(lines), fields);
  }

  lemma UserInfoRowsAre(output: string, fields: seq<Field>)
    requires Filter(SplitLines(output), HasColon) == FieldLines(fields)
    requires forall f | f in fields :: ':' !in f.name
    ensures ParseUserInfo(output).rows == FieldRows(fields)
  {
    var rows := ParseUserInfo(output).rows;
    forall k | 0 <= k < |fields|
      ensures rows[k] == FieldRows(fields)[k]
    {
      var f := fields[k];
      assert f in fields;
      SplitAtFirstColon(rows[k][0], rows[k][1], f.name, f.value);
    }
  }

  /** Two texts without ':' before a ':' split the same way. */
  lemma SplitAtFirstColon(a: string, b: string, x: string, y: string)
    requires ':' !in a && ':' !in x
    requires a + ":" + b == x + ":" + y
    ensures a == x && b == y
  {
    var s := a + ":" + b;
    FirstCharAt(a, ':', b);
    FirstCharAt(x, ':', y);
    assert a == s[..|a|] && x == s[..|x|];
    assert b == s[|a| + 1..] && y == s[|x| + 1..];
  }
}
