/** Reverse-Proxy Inspector: `parse_nginx_domains` and
    `parse_nginx_domain_info` over the captured stdout of `nginx -T`.
    Neither follows the configuration's braces: the first looks a fixed nine
    lines past each `server_name` line, the second copies lines from a
    `server_name DOMAIN;` line up to the first line holding a '}'.
    Running nginx is not part of this model. */
module ProxyInspector {
  import opened Tables
  import opened TextOps
  import opened Seqs

  const DomainHeaders: seq<string> := ["Server", "Proxy", "Port"]

  /** `[server_name, proxy, port]`; proxy and port stay `None` when the
      lookahead finds no line for them. */
  datatype DomainRow = DomainRow(server: string, proxy: Option<string>, port: Option<string>)

  predicate IsServerNameLine(line: string) {
    Contains(line, "server_name")
  }

  /** Whether `line.split()[1]` exists. */
  predicate HasValue(line: string) {
    |Words(line)| >= 2
  }

  /** `line.split()[1].strip(';')`: the directive's first argument. */
  function Value(line: string): string
    requires HasValue(line)
  {
    Strip(Words(line)[1], ';')
  }

  /** The value is the directive's second token with its leading and
      trailing ';' removed: a contiguous slice of that token, free of
      whitespace, neither starting nor ending with ';', and everything cut
      away around it is ';'. */
  lemma ValueIsArgument(line: string)
    requires HasValue(line)
    ensures var w, v := Words(line)[1], Value(line);
      && NoSpace(v)
      && (v == [] || (v[0] != ';' && v[|v| - 1] != ';'))
      && |StripLeft(w, ';')| <= |w|
      && var i := |w| - |StripLeft(w, ';')|;
         && i + |v| <= |w| && v == w[i..i + |v|]
         && (forall j | 0 <= j < i :: w[j] == ';')
         && (forall j | i + |v| <= j < |w| :: w[j] == ';')
  {
    var w, v := Words(line)[1], Value(line);
    WordsAreTokens(line);
    assert w in Words(line);
    StripIsSlice(w, ';');
    var i := |w| - |StripLeft(w, ';')|;
    forall j | 0 <= j < |v|
      ensures !IsSpace(v[j])
    {
      assert v[j] == w[i + j];
    }
  }

  // ---------------------------------------------------------------------------
  // parse_nginx_domains, as the loops compute it
  // ---------------------------------------------------------------------------

  /** Steps `i`..9 of the lookahead over `lines[idx + i]`, carrying the proxy
      and port found so far: a `proxy_pass` line, then a `listen` line,
      overwrites what an earlier one set. Reading past the end of `lines`, or
      the second token of a matching line that has only one, is an IndexError. */
  function Scan(lines: seq<string>, idx: nat, i: nat, proxy: Option<string>, port: Option<string>)
    : Result<(Option<string>, Option<string>)>
    requires 1 <= i <= 10
    decreases 10 - i
  {
    if i == 10 then Ok((proxy, port))
    else if idx + i >= |lines| then IndexError
    else
      var probe := lines[idx + i];
      if Contains(probe, "proxy_pass") && !HasValue(probe) then IndexError
      else
        var proxy' := if Contains(probe, "proxy_pass") then Some(Value(probe)) else proxy;
        if Contains(probe, "listen") && !HasValue(probe) then IndexError
        else
          var port' := if Contains(probe, "listen") then Some(Value(probe)) else port;
          Scan(lines, idx, i + 1, proxy', port')
  }

  /** The row for the `server_name` line at `k`. The lookahead starts at
      `lines.index(line)`, the first line equal to it, not at `k`. */
  function RowAt(lines: seq<string>, k: nat): Result<DomainRow>
    requires k < |lines|
  {
    var line := lines[k];
    if !HasValue(line) then IndexError
    else
      match Scan(lines, IndexOf(lines, line), 1, None, None)
      case IndexError => IndexError
      case Ok((proxy, port)) => Ok(DomainRow(Value(line), proxy, port))
  }

  function Prepend(rows: seq<DomainRow>, r: Result<seq<DomainRow>>): Result<seq<DomainRow>> {
    match r
    case IndexError => IndexError
    case Ok(rest) => Ok(rows + rest)
  }

  /** The rows for the lines from `k` on, or IndexError if any of them raises. */
  function DomainsFrom(lines: seq<string>, k: nat): Result<seq<DomainRow>>
    decreases |lines| - k
  {
    if k >= |lines| then Ok([])
    else if !IsServerNameLine(lines[k]) then DomainsFrom(lines, k + 1)
    else
      match RowAt(lines, k)
      case IndexError => IndexError
      case Ok(row) => Prepend([row], DomainsFrom(lines, k + 1))
  }

  function AsTable(r: Result<seq<DomainRow>>): Result<Table<DomainRow>> {
    match r
    case IndexError => IndexError
    case Ok(rows) => Ok(Table(DomainHeaders, rows))
  }

  /** `parse_nginx_domains(output)`. */
  method ParseNginxDomains(output: string) returns (r: Result<Table<DomainRow>>)
    ensures r == AsTable(DomainsFrom(SplitLines(output), 0))
  {
    var lines := SplitLines(output);
    var data: seq<DomainRow> := [];
    assert Prepend(data, DomainsFrom(lines, 0)) == DomainsFrom(lines, 0) by {
      if DomainsFrom(lines, 0).Ok? {
        assert data + DomainsFrom(lines, 0).value == DomainsFrom(lines, 0).value;
      }
    }
    for k := 0 to |lines|
      invariant DomainsFrom(lines, 0) == Prepend(data, DomainsFrom(lines, k))
    {
      var line := lines[k];
      if Contains(line, "server_name") {
        var parts := Words(line);
        if |parts| < 2 {
          RowRaises(lines, k, data);
          return IndexError;
        }
        var server := Strip(parts[1], ';');
        // Python re-evaluates lines.index(line) at every use; it is the same each time.
        var found := Lookahead(lines, IndexOf(lines, line));
        if found.IndexError? {
          RowRaises(lines, k, data);
          return IndexError;
        }
        var (proxy, port) := found.value;
        RowExtends(lines, k, data, DomainRow(server, proxy, port));
        data := data + [DomainRow(server, proxy, port)];
      } else {
        assert DomainsFrom(lines, k) == DomainsFrom(lines, k + 1);
      }
    }
    assert DomainsFrom(lines, |lines|) == Ok([]);
    assert data + [] == data;
    r := Ok(Table(DomainHeaders, data));
  }

  /** The inner loop of `parse_nginx_domains`: lines `idx + 1` to `idx + 9`,
      in order; a `proxy_pass` line, then a `listen` line, sets its slot to
      the line's second token without ';'. */
  method Lookahead(lines: seq<string>, idx: nat) returns (r: Result<(Option<string>, Option<string>)>)
    ensures r == Scan(lines, idx, 1, None, None)
  {
    var proxy: Option<string>, port: Option<string> := None, None;
    for i := 1 to 10
      invariant Scan(lines, idx, 1, None, None) == Scan(lines, idx, i, proxy, port)
    {
      if idx + i >= |lines| {
        ScanFails(lines, idx, i, proxy, port);
        return IndexError;
      }
      ghost var proxy0, port0 := proxy, port;
      var probe := lines[idx + i];
      if Contains(probe, "proxy_pass") {
        var w := Words(probe);
        if |w| < 2 {
          ScanFails(lines, idx, i, proxy, port);
          return IndexError;
        }
        proxy := Some(Strip(w[1], ';'));
      }
      if Contains(probe, "listen") {
        var w := Words(probe);
        if |w| < 2 {
          ScanFails(lines, idx, i, proxy0, port0);
          return IndexError;
        }
        port := Some(Strip(w[1], ';'));
      }
      assert proxy == Update(probe, "proxy_pass", proxy0) && port == Update(probe, "listen", port0);
      ScanStep(lines, idx, i, proxy0, port0);
    }
    return Ok((proxy, port));
  }

  /** A lookahead step that reads past the end, or a matching line without a
      second token, raises. */
  lemma ScanFails(lines: seq<string>, idx: nat, i: nat, proxy: Option<string>, port: Option<string>)
    requires 1 <= i < 10
    requires idx + i >= |lines| || (Relevant(lines[idx + i]) && !HasValue(lines[idx + i]))
    ensures Scan(lines, idx, i, proxy, port) == IndexError
  {
  }

  /** A row that raises at line `k` makes the listing from `k` on raise,
      whatever rows were collected before it. */
  lemma RowRaises(lines: seq<string>, k: nat, data: seq<DomainRow>)
    requires k < |lines| && IsServerNameLine(lines[k])
    requires RowAt(lines, k) == IndexError
    ensures Prepend(data, DomainsFrom(lines, k)) == IndexError
  {
  }

  /** A row read at line `k` moves from the rest of the listing to the rows
      collected so far. */
  lemma RowExtends(lines: seq<string>, k: nat, data: seq<DomainRow>, row: DomainRow)
    requires k < |lines| && IsServerNameLine(lines[k])
    requires RowAt(lines, k) == Ok(row)
    ensures Prepend(data, DomainsFrom(lines, k)) == Prepend(data + [row], DomainsFrom(lines, k + 1))
  {
    var rest := DomainsFrom(lines, k + 1);
    assert DomainsFrom(lines, k) == Prepend([row], rest);
    if rest.Ok? {
      assert data + ([row] + rest.value) == (data + [row]) + rest.value;
    }
  }

  // ---------------------------------------------------------------------------
  // parse_nginx_domains, stated without the loops
  // ---------------------------------------------------------------------------

  /** The last line in `lines[lo..hi]` that contains `needle`. */
  function LastWith(lines: seq<string>, lo: nat, hi: nat, needle: string): (j: Option<nat>)
    requires lo <= hi <= |lines|
    ensures j.Some? ==> lo <= j.value < hi && Contains(lines[j.value], needle)
    decreases hi - lo
  {
    if lo == hi then None
    else
      match LastWith(lines, lo + 1, hi, needle)
      case Some(j) => Some(j)
      case None => if Contains(lines[lo], needle) then Some(lo) else None
  }

  /** `LastWith` finds the last matching line: none after it in the range
      contains the needle, and `None` means no line in the range does. */
  lemma {:induction false} LastWithIsLast(lines: seq<string>, lo: nat, hi: nat, needle: string)
    requires lo <= hi <= |lines|
    ensures var j := LastWith(lines, lo, hi, needle);
      && (j.Some? ==> forall m | j.value < m < hi :: !Contains(lines[m], needle))
      && (j.None? ==> forall m | lo <= m < hi :: !Contains(lines[m], needle))
    decreases hi - lo
  {
    if lo < hi {
      LastWithIsLast(lines, lo + 1, hi, needle);
    }
  }

  /** A line the lookahead takes a value from. */
  predicate Relevant(line: string) {
    Contains(line, "proxy_pass") || Contains(line, "listen")
  }

  /** Whether lookahead steps `i`..9 after `idx` read no line past the end
      and find a second token on every `proxy_pass` and `listen` line. */
  predicate WindowOk(lines: seq<string>, idx: nat, i: nat)
    decreases 10 - i
  {
    i >= 10
    || (&& idx + i < |lines|
        && (Relevant(lines[idx + i]) ==> HasValue(lines[idx + i]))
        && WindowOk(lines, idx, i + 1))
  }

  /** The window is readable from step `i` exactly when all of it lies inside
      the output and every `proxy_pass` or `listen` line in it has a second
      token. */
  lemma {:induction false} WindowOkMeans(lines: seq<string>, idx: nat, i: nat)
    requires 1 <= i <= 10
    ensures WindowOk(lines, idx, i)
        <==> && (i < 10 ==> idx + 10 <= |lines|)
             && forall j | idx + i <= j < idx + 10 :: Relevant(lines[j]) ==> HasValue(lines[j])
    decreases 10 - i
  {
    if i < 10 {
      WindowOkMeans(lines, idx, i + 1);
      if idx + 10 <= |lines| && !WindowOk(lines, idx, i) {
        if Relevant(lines[idx + i]) && !HasValue(lines[idx + i]) {
        } else {
          assert !WindowOk(lines, idx, i + 1);
          var j :| idx + i + 1 <= j < idx + 10 && Relevant(lines[j]) && !HasValue(lines[j]);
        }
      }
    }
  }

  /** The value of the last line in `lines[lo..hi]` containing `needle`, or
      `default` when there is none (or, never the case in a readable window,
      when that line has no second token). */
  function LastValue(lines: seq<string>, lo: nat, hi: nat, needle: string, default: Option<string>): Option<string>
    requires lo <= hi <= |lines|
  {
    match LastWith(lines, lo, hi, needle)
    case None => default
    case Some(j) => if HasValue(lines[j]) then Some(Value(lines[j])) else default
  }

  /** What one lookahead step leaves in a slot: the value of `probe` if it
      contains `needle`, else what the slot held. */
  function Update(probe: string, needle: string, held: Option<string>): Option<string>
    requires Contains(probe, needle) ==> HasValue(probe)
  {
    if Contains(probe, needle) then Some(Value(probe)) else held
  }

  lemma ScanStep(lines: seq<string>, idx: nat, i: nat, proxy: Option<string>, port: Option<string>)
    requires 1 <= i < 10 && idx + i < |lines|
    requires Relevant(lines[idx + i]) ==> HasValue(lines[idx + i])
    ensures Scan(lines, idx, i, proxy, port)
         == Scan(lines, idx, i + 1, Update(lines[idx + i], "proxy_pass", proxy),
                 Update(lines[idx + i], "listen", port))
  {
  }

  /** The lookahead succeeds exactly when its window is readable. */
  lemma {:induction false} ScanOk(lines: seq<string>, idx: nat, i: nat, proxy: Option<string>, port: Option<string>)
    requires 1 <= i <= 10
    ensures Scan(lines, idx, i, proxy, port).Ok? <==> WindowOk(lines, idx, i)
    decreases 10 - i
  {
    if i < 10 && idx + i < |lines| {
      var probe := lines[idx + i];
      if !Relevant(probe) || HasValue(probe) {
        ScanStep(lines, idx, i, proxy, port);
        ScanOk(lines, idx, i + 1, Update(probe, "proxy_pass", proxy), Update(probe, "listen", port));
      }
    }
  }

  /** When the window is readable, the proxy and the port come from the LAST
      matching line in it; a slot no line matches keeps what it held. */
  lemma {:induction false} ScanIsLastMatch(lines: seq<string>, idx: nat, i: nat, proxy: Option<string>, port: Option<string>)
    requires 1 <= i <= 10
    requires WindowOk(lines, idx, i) && idx + 10 <= |lines|
    ensures Scan(lines, idx, i, proxy, port)
         == Ok((LastValue(lines, idx + i, idx + 10, "proxy_pass", proxy),
                LastValue(lines, idx + i, idx + 10, "listen", port)))
    decreases 10 - i
  {
    if i < 10 {
      ScanAdvance(lines, idx, i, proxy, port);
      var probe := lines[idx + i];
      WindowLastValueStep(lines, idx, i, "proxy_pass", proxy);
      WindowLastValueStep(lines, idx, i, "listen", port);
      ScanIsLastMatch(lines, idx, i + 1, Update(probe, "proxy_pass", proxy), Update(probe, "listen", port));
    }
  }

  /** A step inside a readable window succeeds, and the rest of the window
      stays readable. */
  lemma ScanAdvance(lines: seq<string>, idx: nat, i: nat, proxy: Option<string>, port: Option<string>)
    requires 1 <= i < 10 && WindowOk(lines, idx, i)
    ensures idx + i < |lines| && WindowOk(lines, idx, i + 1)
    ensures Relevant(lines[idx + i]) ==> HasValue(lines[idx + i])
    ensures Scan(lines, idx, i, proxy, port)
         == Scan(lines, idx, i + 1, Update(lines[idx + i], "proxy_pass", proxy),
                 Update(lines[idx + i], "listen", port))
  {
    ScanStep(lines, idx, i, proxy, port);
  }

  /** One step into a readable window: the line at step `i` becomes the
      default that any later matching line in the window overrides. */
  lemma WindowLastValueStep(lines: seq<string>, idx: nat, i: nat, needle: string, held: Option<string>)
    requires 1 <= i < 10 && WindowOk(lines, idx, i) && idx + 10 <= |lines|
    requires needle == "proxy_pass" || needle == "listen"
    requires Contains(lines[idx + i], needle) ==> HasValue(lines[idx + i])
    ensures LastValue(lines, idx + i, idx + 10, needle, held)
         == LastValue(lines, idx + i + 1, idx + 10, needle, Update(lines[idx + i], needle, held))
  {
    var later := LastWith(lines, idx + i + 1, idx + 10, needle);
    if later.Some? {
      assert Relevant(lines[later.value]);
      WindowValue(lines, idx, i, later.value);
    }
    LastValueStep(lines, idx + i, idx + 10, needle, held);
  }

  /** Every `proxy_pass` or `listen` line of a readable window has a second
      token. */
  lemma {:induction false} WindowValue(lines: seq<string>, idx: nat, i: nat, j: nat)
    requires WindowOk(lines, idx, i) && idx + i <= j < idx + 10 && j < |lines|
    requires Relevant(lines[j])
    ensures HasValue(lines[j])
    decreases 10 - i
  {
    if j > idx + i {
      WindowValue(lines, idx, i + 1, j);
    }
  }

  /** Scanning a range from its first line: that line's value is the new
      default, which a later matching line overrides. */
  lemma LastValueStep(lines: seq<string>, lo: nat, hi: nat, needle: string, default: Option<string>)
    requires lo < hi <= |lines|
    requires Contains(lines[lo], needle) ==> HasValue(lines[lo])
    requires var later := LastWith(lines, lo + 1, hi, needle);
      later.Some? ==> HasValue(lines[later.value])
    ensures LastValue(lines, lo, hi, needle, default)
         == LastValue(lines, lo + 1, hi, needle, Update(lines[lo], needle, default))
  {
    var later := LastWith(lines, lo + 1, hi, needle);
    if later.Some? {
      assert LastWith(lines, lo, hi, needle) == later;
    } else if Contains(lines[lo], needle) {
      assert LastWith(lines, lo, hi, needle) == Some(lo);
    } else {
      assert LastWith(lines, lo, hi, needle) == None;
    }
  }

  /** Whether the `server_name` line `line` yields a row rather than raising. */
  predicate LineOk(lines: seq<string>, line: string)
    requires line in lines
  {
    HasValue(line) && WindowOk(lines, IndexOf(lines, line), 1)
  }

  /** The row of a `server_name` line: its value, and the values of the last
      `proxy_pass` and `listen` lines among the nine that follow the FIRST
      line equal to it. */
  function DeclaredRow(lines: seq<string>, line: string): DomainRow
    requires line in lines && LineOk(lines, line)
  {
    var idx := IndexOf(lines, line);
    DomainRow(Value(line),
              LastValue(lines, idx + 1, idx + 10, "proxy_pass", None),
              LastValue(lines, idx + 1, idx + 10, "listen", None))
  }

  predicate AllDeclared(lines: seq<string>, decl: seq<string>) {
    forall l | l in decl :: l in lines && LineOk(lines, l)
  }

  function DeclaredRows(lines: seq<string>, decl: seq<string>): seq<DomainRow>
    requires AllDeclared(lines, decl)
  {
    if decl == [] then [] else [DeclaredRow(lines, decl[0])] + DeclaredRows(lines, decl[1..])
  }

  lemma RowAtIsDeclared(lines: seq<string>, k: nat)
    requires k < |lines|
    ensures RowAt(lines, k).Ok? <==> LineOk(lines, lines[k])
    ensures RowAt(lines, k).Ok? ==> RowAt(lines, k).value == DeclaredRow(lines, lines[k])
  {
    var line := lines[k];
    if HasValue(line) {
      var idx := IndexOf(lines, line);
      ScanOk(lines, idx, 1, None, None);
      if WindowOk(lines, idx, 1) {
        ScanIsLastMatch(lines, idx, 1, None, None);
      }
    }
  }

  /** From line `k` on, the listing raises IndexError exactly when some
      `server_name` line's row cannot be read; otherwise it is one row per
      `server_name` line, in order, each as `DeclaredRow` states it. */
  lemma {:induction false} DomainsFromIsDeclared(lines: seq<string>, k: nat)
    requires k <= |lines|
    ensures DomainsFrom(lines, k).Ok? <==>
      forall j | k <= j < |lines| :: IsServerNameLine(lines[j]) ==> LineOk(lines, lines[j])
    ensures DomainsFrom(lines, k).Ok? ==>
      AllDeclared(lines, Filter(lines[k..], IsServerNameLine))
      && DomainsFrom(lines, k).value == DeclaredRows(lines, Filter(lines[k..], IsServerNameLine))
    decreases |lines| - k
  {
    if k < |lines| {
      DomainsFromIsDeclared(lines, k + 1);
      var decl := Filter(lines[k + 1..], IsServerNameLine);
      assert lines[k..][1..] == lines[k + 1..];
      if IsServerNameLine(lines[k]) {
        RowAtIsDeclared(lines, k);
        assert Filter(lines[k..], IsServerNameLine) == [lines[k]] + decl;
        if DomainsFrom(lines, k).Ok? {
          assert forall l | l in decl :: l in lines by {
            forall l | l in decl ensures l in lines {
              assert l in lines[k + 1..];
            }
          }
          DeclaredRowsCons(lines, lines[k], decl);
        }
      } else {
        assert Filter(lines[k..], IsServerNameLine) == decl;
      }
    } else {
      assert lines[k..] == [];
    }
  }

  lemma DeclaredRowsCons(lines: seq<string>, line: string, decl: seq<string>)
    requires line in lines && LineOk(lines, line) && AllDeclared(lines, decl)
    ensures AllDeclared(lines, [line] + decl)
    ensures DeclaredRows(lines, [line] + decl) == [DeclaredRow(lines, line)] + DeclaredRows(lines, decl)
  {
    assert ([line] + decl)[1..] == decl;
  }

  /** `parse_nginx_domains` raises IndexError exactly when some
      `server_name` line has no second token or its lookahead window cannot
      be read; otherwise its rows are one `DeclaredRow` per `server_name`
      line, in order. */
  lemma DomainsAreDeclared(output: string)
    ensures var lines := SplitLines(output);
      && (AsTable(DomainsFrom(lines, 0)).Ok? <==>
            forall j | 0 <= j < |lines| :: IsServerNameLine(lines[j]) ==> LineOk(lines, lines[j]))
      && (AsTable(DomainsFrom(lines, 0)).Ok? ==>
            AllDeclared(lines, Filter(lines, IsServerNameLine))
            && AsTable(DomainsFrom(lines, 0)).value
               == Table(DomainHeaders, DeclaredRows(lines, Filter(lines, IsServerNameLine))))
  {
    var lines := SplitLines(output);
    DomainsFromIsDeclared(lines, 0);
    assert lines[0..] == lines;
  }

  /** A `server_name` line that repeats an earlier line gets the earlier
      line's row: both look ahead from the first copy. */
  lemma RepeatedLineRow(lines: seq<string>, j: nat, k: nat)
    requires j < k < |lines| && lines[j] == lines[k]
    ensures RowAt(lines, k) == RowAt(lines, j)
  {
  }

  /** A `server_name` line among the last nine lines, with no copy of it
      earlier, makes the whole listing raise IndexError: its lookahead reads
      past the end. (A later copy of an earlier line reuses the earlier
      line's window instead.) */
  lemma NearEndRaises(lines: seq<string>, k: nat)
    requires k < |lines| && IsServerNameLine(lines[k]) && |lines| < k + 10
    requires forall j | 0 <= j < k :: lines[j] != lines[k]
    ensures DomainsFrom(lines, 0) == IndexError
  {
    assert !LineOk(lines, lines[k]) by {
      assert IndexOf(lines, lines[k]) == k;
      WindowOkMeans(lines, k, 1);
    }
    assert !DomainsFrom(lines, 0).Ok? by {
      DomainsFromIsDeclared(lines, 0);
    }
  }

  // ---------------------------------------------------------------------------
  // parse_nginx_domain_info
  // ---------------------------------------------------------------------------

  /** The text that starts the capture: `f"server_name {domain};"`. */
  function DomainNeedle(domain: string): string {
    "server_name " + domain + ";"
  }

  /** The first line at or after `from` that contains `needle`, or `|lines|`. */
  function FirstMention(lines: seq<string>, needle: string, from: nat): (i: nat)
    requires from <= |lines|
    ensures from <= i <= |lines|
    ensures i < |lines| ==> Contains(lines[i], needle)
    decreases |lines| - from
  {
    if from == |lines| || Contains(lines[from], needle) then from
    else FirstMention(lines, needle, from + 1)
  }

  /** No line before the one `FirstMention` finds contains the needle. */
  lemma {:induction false} FirstMentionIsFirst(lines: seq<string>, needle: string, from: nat)
    requires from <= |lines|
    ensures forall j | from <= j < FirstMention(lines, needle, from) :: !Contains(lines[j], needle)
    decreases |lines| - from
  {
    if from < |lines| && !Contains(lines[from], needle) {
      FirstMentionIsFirst(lines, needle, from + 1);
    }
  }

  /** The first line at or after `from` that holds a '}', or `|lines|`. */
  function FirstClose(lines: seq<string>, from: nat): (i: nat)
    requires from <= |lines|
    ensures from <= i <= |lines|
    ensures i < |lines| ==> '}' in lines[i]
    decreases |lines| - from
  {
    if from == |lines| || '}' in lines[from] then from
    else FirstClose(lines, from + 1)
  }

  /** No line before the one `FirstClose` finds holds a '}'. */
  lemma {:induction false} FirstCloseIsFirst(lines: seq<string>, from: nat)
    requires from <= |lines|
    ensures forall j | from <= j < FirstClose(lines, from) :: '}' !in lines[j]
    decreases |lines| - from
  {
    if from < |lines| && '}' !in lines[from] {
      FirstCloseIsFirst(lines, from + 1);
    }
  }

  /** The lines `parse_nginx_domain_info` captures: from the first line that
      contains `server_name DOMAIN;` to the first line from there on that
      holds a '}' (included), or to the end. */
  function DomainBlock(lines: seq<string>, domain: string): seq<string>
  {
    var start := FirstMention(lines, DomainNeedle(domain), 0);
    if start == |lines| then []
    else
      var close := FirstClose(lines, start);
      if close == |lines| then lines[start..] else lines[start..close + 1]
  }

  /** `parse_nginx_domain_info(output, domain)`: a flag turns on at the first
      line mentioning the domain; from then on every line is kept until one
      holding a '}' has been kept. The result is the kept lines joined by
      '\n', and it is empty exactly when no line mentions the domain. */
  method ParseNginxDomainInfo(output: string, domain: string) returns (info: string)
    ensures info == JoinLines(DomainBlock(SplitLines(output), domain))
    ensures info == "" <==> forall l | l in SplitLines(output) :: !Contains(l, DomainNeedle(domain))
  {
    var lines := SplitLines(output);
    var needle := DomainNeedle(domain);
    ghost var start := FirstMention(lines, needle, 0);
    var config: seq<string> := [];
    var capture := false;
    ghost var closed := false;
    for i := 0 to |lines|
      invariant !closed
      invariant !capture ==> config == [] && FirstMention(lines, needle, i) == start
      invariant capture ==> start < i && config == lines[start..i]
                            && FirstClose(lines, start) == FirstClose(lines, i)
    {
      if Contains(lines[i], needle) {
        capture := true;
      }
      if capture {
        SliceSnoc(lines, start, i);
        config := config + [lines[i]];
        if '}' in lines[i] {
          BlockIs(lines, domain, start, i + 1);
          closed := true;
          break;
        }
      }
    }
    if !capture {
      NoBlock(lines, domain);
    } else if !closed {
      BlockIs(lines, domain, start, |lines|);
    }
    info := JoinLines(config);
    BlockEmpty(lines, domain);
  }

  /** The block is `lines[start..end]` when the capture starts at `start`
      and either its first '}' is on line `end - 1`, or `end` is the end of
      the input and no '}' comes before the last line. */
  lemma BlockIs(lines: seq<string>, domain: string, start: nat, end: nat)
    requires start == FirstMention(lines, DomainNeedle(domain), 0) && start < end <= |lines|
    requires end < |lines| ==> FirstClose(lines, start) == end - 1
    requires end == |lines| ==> FirstClose(lines, start) >= end - 1
    ensures DomainBlock(lines, domain) == lines[start..end]
  {
  }

  /** Without a line that mentions the domain, nothing is captured. */
  lemma NoBlock(lines: seq<string>, domain: string)
    requires FirstMention(lines, DomainNeedle(domain), 0) == |lines|
    ensures DomainBlock(lines, domain) == []
  {
  }

  /** The captured text is empty exactly when no line mentions the domain. */
  lemma BlockEmpty(lines: seq<string>, domain: string)
    ensures JoinLines(DomainBlock(lines, domain)) == ""
        <==> forall l | l in lines :: !Contains(l, DomainNeedle(domain))
  {
    var needle := DomainNeedle(domain);
    var start := FirstMention(lines, needle, 0);
    FirstMentionIsFirst(lines, needle, 0);
    if start < |lines| {
      var block := DomainBlock(lines, domain);
      assert block[0] == lines[start] && lines[start] in lines;
      assert block[0] != "";
    }
  }

  /** When line `s` is the first to mention the domain, the captured block is
      a run of consecutive lines starting at `s`, in which only the last line
      may hold a '}'; and the last line does hold one unless the block runs
      to the end of the input. */
  lemma DomainBlockShape(lines: seq<string>, domain: string, s: nat)
    requires s < |lines| && Contains(lines[s], DomainNeedle(domain))
    requires forall j | 0 <= j < s :: !Contains(lines[j], DomainNeedle(domain))
    ensures var block := DomainBlock(lines, domain);
      && 1 <= |block| && s + |block| <= |lines|
      && block == lines[s..s + |block|]
      && (forall j | 0 <= j < |block| - 1 :: '}' !in block[j])
      && ('}' in block[|block| - 1] || s + |block| == |lines|)
  {
    var start := FirstMention(lines, DomainNeedle(domain), 0);
    FirstMentionIsFirst(lines, DomainNeedle(domain), 0);
    assert start == s;
    FirstCloseIsFirst(lines, s);
  }
}
