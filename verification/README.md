# devopsfetch parsers in Dafny

devopsfetch is a command-line tool that runs a system command (netstat,
docker, nginx, query/net user), captures its standard output as text and
scrapes it, line by line, into a table of headers and rows. This project
models the scraping half: the parsers of `devopsfetch.py`, each taking the
captured output as a string parameter.

Modules:

- `Tables` (`tables.dfy`): `Option`, `Result` (`Ok` or `IndexError`, the
  exception Python raises on an index out of range) and `Table` (headers
  and rows).
- `TextOps` (`text.dfy`): the Python string operations the parsers use.
  These are `splitlines()`, `"\n".join`, `split()` with no argument,
  `strip(';')`, `split(':', 1)` and the substring test `t in s`.
- `Seqs` (`seqs.dfy`): the filtering list comprehension, the slice
  `s[:n]` and `list.index`.
- `PortInspector` (`ports.dfy`): `parse_ports` as a method with its loop,
  and the per-port line filter of `get_port_info`.
- `ContainerInspector` (`docker.dfy`): `parse_docker_images`.
- `ProxyInspector` (`nginx.dfy`): `parse_nginx_domains` as a method with
  its outer loop over lines and its inner nine-line lookahead loop, and
  `parse_nginx_domain_info` as a method with its capture loop.
- `SessionInspector` (`users.dfy`): `parse_users` and `parse_user_info`.

Every `lines[0]`, `line.split()[1]` and `lines[lines.index(line) + i]`
that Python may evaluate out of range is modelled as an `IndexError`
result, so no parser restricts its input.

Each loop is proved against a function that states its result without the
loop. For `parse_nginx_domains` that function is then characterised
outright: the listing raises exactly when some `server_name` line has no
second token, or its lookahead window runs past the end of the output, or
the window has a `proxy_pass`/`listen` line without a second token.
Otherwise each row is the line's value followed by the values of the LAST
`proxy_pass` and the LAST `listen` line in the nine lines after the FIRST
copy of that `server_name` line.

## Model

| member | source | states |
|---|---|---|
| TextOps.SplitLines | devopsfetch.py:32 | `splitlines()` gives no lines exactly when the text is empty |
| TextOps.SplitLinesHaveNoBreak | devopsfetch.py:32 | no line `splitlines()` produces holds a '\n' |
| TextOps.SplitLinesBreak | devopsfetch.py:32 | text with a '\n' splits into the part before its first '\n', then the lines of the rest |
| TextOps.FirstCharAt | devopsfetch.py:32 | the first `c` of `a + c + b` is at `len(a)` when `a` has none; `splitlines()` and `split(':', 1)` cut there |
| TextOps.JoinLines | devopsfetch.py:29 | `"\n".join(lines)`; `SplitJoinLines` and `JoinSplitLines` state that it inverts `splitlines()` |
| TextOps.Join | devopsfetch.py:29 | `sep.join(parts)`: the result starts with the first part |
| TextOps.SplitJoinLines | devopsfetch.py:27-32 | joining lines with '\n' and splitting again gives them back, when no line holds '\n' and the last line is not empty |
| TextOps.JoinSplitLines | devopsfetch.py:27-32 | splitting text and joining with '\n' gives the text back, minus a final '\n' |
| TextOps.JoinSplitLinesStep | devopsfetch.py:27-32 | the round trip above extends from the text after the first '\n' to the whole text |
| TextOps.DropFinalBreakAfter | devopsfetch.py:27-32 | a final '\n' of a non-empty suffix is the final '\n' of the whole text |
| TextOps.Contains | devopsfetch.py:27 | Python's `t in s` on strings; `ContainsAt` states it holds exactly when `t` occurs at some position |
| TextOps.ContainsAt | devopsfetch.py:27 | the substring test holds exactly when the needle occurs at some position |
| TextOps.TokenLenIsRun | devopsfetch.py:36 | a token runs to the first whitespace character or the end of the line |
| TextOps.Words | devopsfetch.py:36 | `str.split()`; `WordsAreTokens`, `WordsAtSpace`, `WordsAfterBlank`, `WordsOfTokenThen` and `WordsOfBlank` state that it yields the non-empty whitespace-free runs, in order, that any run of whitespace (tabs, several spaces, leading or trailing) separates tokens and adds none, and that a blank line gives nothing |
| TextOps.WordsAreTokens | devopsfetch.py:36 | `split()` yields only non-empty tokens free of whitespace |
| TextOps.TokenLenOfToken | devopsfetch.py:36 | a token followed by whitespace or the end is measured whole |
| TextOps.WordsOfTokenThen | devopsfetch.py:53-54 | a token followed by whitespace splits off as the first token |
| TextOps.WordsJoin | devopsfetch.py:53-54 | `split()` of tokens joined by single spaces gives the tokens back |
| TextOps.WordsOfBlank | devopsfetch.py:54 | a line of whitespace only splits into no tokens |
| TextOps.TokenLenBeforeSpace | devopsfetch.py:36 | the first token of a text is unchanged by appending text that starts with whitespace |
| TextOps.WordsAtSpace | devopsfetch.py:36 | `split()` breaks at every whitespace character: the tokens of `a + c + b`, with `c` whitespace, are those of `a` followed by those of `b` |
| TextOps.WordsAfterBlank | devopsfetch.py:36 | whitespace in front of a text adds no tokens |
| TextOps.PadsOkTail | devopsfetch.py:53-54 | the padding of a column-aligned line, less its first column, pads the rest of the line |
| TextOps.WordsOfPadded | devopsfetch.py:53-54 | `split()` of tokens laid out in columns with any whitespace padding (at least one character between tokens, none of it '\n') gives the tokens back |
| TextOps.PaddedIsOneLine | devopsfetch.py:52-54 | a column-aligned line of tokens has no line break, and is not empty when it has a token |
| TextOps.TokenHasNoNewline | devopsfetch.py:52 | a token holds no '\n', which is whitespace |
| TextOps.StripLeftDrops | devopsfetch.py:74 | `lstrip(';')` removes a leading run of ';', all of it, and nothing else |
| TextOps.StripRightDrops | devopsfetch.py:74 | `rstrip(';')` removes a trailing run of ';', all of it, and nothing else |
| TextOps.Strip | devopsfetch.py:74 | `strip(';')` leaves text that neither starts nor ends with ';' |
| TextOps.StripIsSlice | devopsfetch.py:74 | `strip(';')` keeps a contiguous slice and removes only ';' characters |
| TextOps.StripIdempotent | devopsfetch.py:74 | stripping twice equals stripping once |
| TextOps.SplitOnce | devopsfetch.py:117 | `split(':', 1)`: with a ':' present, two parts, the first without ':', that rejoin with ':' to the input; otherwise the input alone |
| Seqs.Filter | devopsfetch.py:27 | the comprehension keeps only elements satisfying the condition, taken from the input, no more than the input |
| Seqs.FilterIsSubsequence | devopsfetch.py:27 | the comprehension keeps input order |
| Seqs.FilterMultiset | devopsfetch.py:27 | every occurrence of a satisfying element is kept, every other dropped |
| Seqs.FilterAppend | devopsfetch.py:27 | filtering a concatenation filters each part |
| Seqs.FilterIdempotent | devopsfetch.py:27 | filtering twice equals filtering once |
| Seqs.Take | devopsfetch.py:111 | `s[:2]` is a prefix of `s` of length min(len(s), 2) |
| Seqs.IndexOf | devopsfetch.py:78 | `lines.index(line)` is the position of the first equal element |
| PortInspector.PortRows | devopsfetch.py:35-38 | the rows `parse_ports` collects; `PortRowsShape` and `PortRowsSnoc` state it is the first four tokens of each line with at least four, in order |
| PortInspector.ParsePorts | devopsfetch.py:31-39 | the loop returns the fixed four headers and exactly `PortRows` of the text's lines |
| PortInspector.PortRowsShape | devopsfetch.py:35-38 | one row per line with at least four tokens, in order; each row is that line's first four tokens |
| PortInspector.PortRowsSnoc | devopsfetch.py:35-38 | one more line appends its row exactly when it has at least four tokens |
| PortInspector.PortFilter | devopsfetch.py:27 | every kept line contains `:PORT `; the kept lines are a subsequence of the input; each line is kept as often as it occurs exactly when it contains `:PORT ` |
| PortInspector.PortFilterIdempotent | devopsfetch.py:27 | filtering the kept lines again keeps them all |
| PortInspector.PortInfo | devopsfetch.py:25-29 | rejoining the kept lines and parsing gives exactly the rows of the kept lines |
| ContainerInspector.ParseDockerImages | devopsfetch.py:51-55 | IndexError exactly when the output is empty; otherwise headers are the first line's tokens and row k is the tokens of line k+1 |
| ContainerInspector.EmptyLineGivesEmptyRow | devopsfetch.py:54 | a blank line below the header gives an empty row |
| ContainerInspector.DockerImagesRoundTrip | devopsfetch.py:51-55 | a listing laid out in columns with any whitespace padding, whose last line is not blank, parses back into its headers and rows; a blank line between rows parses back into an empty row |
| ContainerInspector.Listing | devopsfetch.py:51-55 | not a model of the parser: the printer inverse to it, laying out a header and rows in columns with the given padding, one line more than there are rows; `DockerImagesRoundTrip` parses its output |
| SessionInspector.ParseUsers | devopsfetch.py:108-112 | one row per line after the first, none filtered; each row is the first two tokens of its line, or all of them when it has fewer (`[w]` for a one-token line, `[]` for a blank one) |
| SessionInspector.UsersRoundTrip | devopsfetch.py:108-112 | under any header line, a listing of sessions laid out in columns with any whitespace padding parses into one `[user, id]` row per session, in order |
| SessionInspector.ListingSplits | devopsfetch.py:109 | the printed session listing splits back into its header and one line per session |
| SessionInspector.SessionRow | devopsfetch.py:111 | the first two tokens of a session's padded line are its user and its id |
| SessionInspector.ParseUserInfo | devopsfetch.py:114-118 | one two-cell row per line holding ':', in order; the first cell has no ':' and the cells joined by ':' are the line |
| SessionInspector.UserInfoRoundTrip | devopsfetch.py:114-118 | a listing whose ':' lines are `name:value` (names without ':') parses into one `[name, value]` row per field |
| SessionInspector.UserInfoRowsAre | devopsfetch.py:117 | the rows are the fields when the ':' lines are exactly the field lines |
| SessionInspector.SplitAtFirstColon | devopsfetch.py:117 | splitting at the first ':' is unique for a first part without ':' |
| ProxyInspector.Value | devopsfetch.py:74 | `line.split()[1].strip(';')`; `ValueIsArgument` states its meaning |
| ProxyInspector.ValueIsArgument | devopsfetch.py:74 | the value is a contiguous slice of the line's second token, without whitespace, neither starting nor ending with ';', and only ';' is cut away around it |
| ProxyInspector.Scan | devopsfetch.py:76-81 | the lookahead from offset i, proxy checked before listen; `ScanOk` states when it raises and `ScanIsLastMatch` what it returns |
| ProxyInspector.RowAt | devopsfetch.py:73-82 | the row of the `server_name` line at k, looked up from `lines.index(line)`; `RowAtIsDeclared` and `RepeatedLineRow` characterise it |
| ProxyInspector.DomainsFrom | devopsfetch.py:71-83 | the rows from line k on, or IndexError; `DomainsFromIsDeclared` characterises it |
| ProxyInspector.ParseNginxDomains | devopsfetch.py:68-83 | the nested loops with their early IndexError exits return exactly `AsTable(DomainsFrom(lines, 0))` |
| ProxyInspector.Lookahead | devopsfetch.py:76-81 | the inner loop over offsets 1..9 returns exactly the lookahead function `Scan` from offset 1 |
| ProxyInspector.ScanFails | devopsfetch.py:78-81 | the lookahead raises IndexError when the line at the current offset is missing, or is a `proxy_pass`/`listen` line without a second token |
| ProxyInspector.RowRaises | devopsfetch.py:73-81 | a `server_name` line whose row raises makes the listing from that line raise, whatever rows were collected before |
| ProxyInspector.RowExtends | devopsfetch.py:82 | a row read at line k moves from the rest of the listing to the collected rows |
| ProxyInspector.LastWith | devopsfetch.py:77-81 | a line found in a range lies in the range and contains the needle |
| ProxyInspector.LastWithIsLast | devopsfetch.py:77-81 | nothing after the found line in the range contains the needle; `None` when no line in the range does |
| ProxyInspector.WindowOkMeans | devopsfetch.py:77-81 | the window is readable from offset i exactly when all nine lines exist and every `proxy_pass`/`listen` line from offset i on has a second token |
| ProxyInspector.ScanStep | devopsfetch.py:78-81 | one lookahead step sets the proxy slot, then the port slot, from a matching line |
| ProxyInspector.ScanOk | devopsfetch.py:77-81 | the lookahead succeeds exactly when its window is readable |
| ProxyInspector.ScanIsLastMatch | devopsfetch.py:77-81 | when it succeeds, proxy and port are the values of the LAST `proxy_pass` and LAST `listen` line of the window, else unchanged |
| ProxyInspector.ScanAdvance | devopsfetch.py:78-81 | inside a readable window a step succeeds and the rest of the window stays readable |
| ProxyInspector.WindowLastValueStep | devopsfetch.py:78-81 | in a readable window, the last match from offset i is the last match after it, defaulting to line i's value |
| ProxyInspector.WindowValue | devopsfetch.py:79-81 | every `proxy_pass`/`listen` line of a readable window has a second token |
| ProxyInspector.LastValueStep | devopsfetch.py:78-81 | the last match of a range is the last match after its first line, defaulting to that line's value |
| ProxyInspector.RowAtIsDeclared | devopsfetch.py:73-82 | the row of a `server_name` line succeeds exactly when `LineOk`, and then is `DeclaredRow` |
| ProxyInspector.DomainsFromIsDeclared | devopsfetch.py:72-83 | from line k on: IndexError exactly when some `server_name` line is not `LineOk`; otherwise one `DeclaredRow` per `server_name` line, in order |
| ProxyInspector.DeclaredRowsCons | devopsfetch.py:82 | rows of declared lines extend one line at a time |
| ProxyInspector.DomainsAreDeclared | devopsfetch.py:68-83 | the listing raises exactly when some `server_name` line is not `LineOk`; otherwise it is the fixed headers and one `DeclaredRow` per `server_name` line, in order |
| ProxyInspector.RepeatedLineRow | devopsfetch.py:78 | a `server_name` line equal to an earlier one gets the earlier one's row |
| ProxyInspector.NearEndRaises | devopsfetch.py:78 | a first-copy `server_name` line among the last nine lines makes the listing raise |
| ProxyInspector.FirstMention | devopsfetch.py:89-91 | the first line from a position on that contains the needle, or the end |
| ProxyInspector.FirstMentionIsFirst | devopsfetch.py:89-91 | no line before it contains the needle |
| ProxyInspector.FirstClose | devopsfetch.py:92-95 | the first line from a position on that holds '}', or the end |
| ProxyInspector.FirstCloseIsFirst | devopsfetch.py:92-95 | no line before it holds '}' |
| ProxyInspector.DomainBlock | devopsfetch.py:88-96 | the captured lines; `DomainBlockShape`, `BlockIs`, `NoBlock` and `BlockEmpty` characterise it |
| ProxyInspector.ParseNginxDomainInfo | devopsfetch.py:85-96 | the loop returns the '\n'-join of `DomainBlock`; the result is empty exactly when no line contains `server_name DOMAIN;` |
| ProxyInspector.BlockIs | devopsfetch.py:89-96 | the block is the lines from the first mention up to and including the first '}', or to the end |
| ProxyInspector.NoBlock | devopsfetch.py:89-96 | without a mention nothing is captured |
| ProxyInspector.BlockEmpty | devopsfetch.py:96 | the captured text is empty exactly when no line mentions the domain |
| ProxyInspector.DomainBlockShape | devopsfetch.py:89-96 | the captured block is a run of consecutive lines from the first mention; only its last line may hold '}', and it does unless the block reaches the end |

## Left out

- Running the external commands (`netstat -an`, `docker images`, `docker inspect`, `nginx -T`, `query user`, `net user`): their captured output is a parameter. The `get_*`/`list_*` wrappers add only that call and a log line, except `get_port_info`, which also keeps the lines holding `:PORT ` (line 27) and joins them with '\n' (line 29) before parsing; `PortInspector.PortFilter` and `PortInspector.PortInfo` model that.
- `get_docker_info`: it returns the command's output unparsed, so there is nothing to model.
- Logging, `main`, argument parsing and `tabulate` rendering: this is I/O. The `--time` flag is parsed but never used.
- Line 157 passes the `(headers, data)` pair from `get_user_info` back into `parse_user_info`, which expects text. Python would fail there with an AttributeError. The dispatch is outside this model; `SessionInspector.ParseUserInfo` models `parse_user_info` on text.
- TextOps.SplitLines: breaks lines at '\n' only. Python's `splitlines()` also breaks at "\r\n", '\r', '\v', '\f', 0x1C-0x1E, U+0085, U+2028 and U+2029.
- TextOps.Words: treats only ASCII whitespace as separators. Python's `split()` also splits on Unicode whitespace such as U+00A0 and U+2003.
- ProxyInspector.ParseNginxDomainInfo follows the code, which starts capturing at the first line that CONTAINS `server_name DOMAIN;`. The line need not equal that text exactly.
- Python evaluates `lines.index(line)` on every use. The model evaluates it once per `server_name` line; the value is the same each time.
- The tuple `(headers, data)` each parser returns is a `Table` or a pair of out-parameters. Python lists and `None` are modelled as sequences and `Option`.
