/** Telecommand frames: com_receive_tc cuts "name params;name params;..." with strtok and
    cmd_parse_from_str turns each piece into a command. strtok is section 7.24.5.8 and sscanf
    section 7.21.6 of ISO/IEC 9899:2011. */
module Telecommand {
  import opened Names
  import opened CommandRepo

  const NUL := 0 as char

  /** SCH_CMD_MAX_STR_PARAMS */
  const MAX_PARAMS := 64

  /** The characters isspace accepts. */
  predicate IsSpace(c: char) {
    c == ' ' || ('\t' <= c <= '\r')
  }

  /** They are the six white-space characters of the C locale. */
  lemma {:induction false} SixSpaces(c: char)
    ensures IsSpace(c) <==> c as int in {32, 9, 10, 11, 12, 13}
  {}

  /** cmd->params: NULL, a string, or more characters than its buffer could terminate. */
  datatype Params = NoParams | Text(text: string) | Unterminated(text: string)

  /** A command as com_receive_tc sends it. */
  datatype Sent = Sent(request: Request, params: Params)

  datatype Option<T> = None | Some(value: T)

  // ------------------------------------------------------------------------------------
  // One command.

  function Spaces(s: string): (n: nat)
    ensures n <= |s|
  {
    if s == "" || !IsSpace(s[0]) then 0 else 1 + Spaces(s[1..])
  }

  function Word(s: string): (n: nat)
    ensures n <= |s|
  {
    if s == "" || IsSpace(s[0]) then 0 else 1 + Word(s[1..])
  }

  /** cmd_add_params_str on a fresh command */
  function AddParams(params: string): Params {
    if params == "" then NoParams
    else if |params| <= MAX_PARAMS then Text(params)
    else Unterminated(params[..MAX_PARAMS + 1])
  }

  /** What a command's parameters hold: nothing, all characters and a terminator, or the first 65 characters
      without one. */
  lemma {:induction false} ParamsHold(params: string)
    ensures AddParams(params).NoParams? <==> params == ""
    ensures AddParams(params).Text? <==> 1 <= |params| <= 64
    ensures AddParams(params).Text? ==> AddParams(params).text == params
    ensures AddParams(params).Unterminated? ==> AddParams(params).text <= params && |AddParams(params).text| == 65
  {}

  /** cmd_parse_from_str: "%s %n" skips spaces, reads a word, skips spaces and notes the position. */
  function Parse(table: seq<Command>, buff: string): Option<Sent> {
    var rest := buff[Spaces(buff)..];
    var name := rest[..Word(rest)];
    var next := rest[Word(rest)..];
    if name == "" then None
    else
      var request := Found(table, name);
      if request.NotFound? then None
      else Some(Sent(request, AddParams(next[Spaces(next)..])))
  }

  method ParseFromStr(repo: Repo, buff: string) returns (r: Option<Sent>)
    requires repo.list.Length == MAX_ENTRIES
    ensures r == Parse(repo.list[..], buff)
  {
    var rest := buff[Spaces(buff)..];
    var word := Word(rest);
    if word == 0 {
      return None;
    }
    var request := repo.GetStr(rest[..word]);
    if request.NotFound? {
      return None;
    }
    var next := rest[word..];
    return Some(Sent(request, AddParams(next[Spaces(next)..])));
  }

  // ------------------------------------------------------------------------------------
  // A frame of commands.

  /** The first position from `p` on that is not a delimiter. */
  function SkipDelimiters(s: string, p: nat): (q: nat)
    requires p <= |s|
    ensures p <= q <= |s| && (q < |s| ==> s[q] != ';')
    decreases |s| - p
  {
    if p < |s| && s[p] == ';' then SkipDelimiters(s, p + 1) else p
  }

  /** The first delimiter from `p` on. */
  function TokenEnd(s: string, p: nat): (q: nat)
    requires p <= |s|
    ensures p <= q <= |s| && (p < |s| && s[p] != ';' ==> p < q)
    decreases |s| - p
  {
    if p < |s| && s[p] != ';' then TokenEnd(s, p + 1) else p
  }

  /** The successive results of strtok with ";" from position `p` on. */
  function Tokens(s: string, p: nat): seq<string>
    requires p <= |s|
    decreases |s| - p
  {
    var start := SkipDelimiters(s, p);
    if start == |s| then []
    else
      var end := TokenEnd(s, start);
      [s[start..end]] + Tokens(s, if end < |s| then end + 1 else end)
  }

  /** The commands sent for a list of pieces. */
  function SendAll(table: seq<Command>, pieces: seq<string>): seq<Sent> {
    if pieces == [] then []
    else
      var rest := SendAll(table, pieces[1..]);
      match Parse(table, pieces[0])
      case None => rest
      case Some(c) => [c] + rest
  }

  /** The C string at the start of a buffer. */
  function CString(s: string): (c: string)
    ensures c <= s && NUL !in c
    ensures |c| < |s| ==> s[|c|] == NUL
  {
    if s == "" || s[0] == NUL then "" else [s[0]] + CString(s[1..])
  }

  /** From position `p` on, the buffer still holds the rest of `content` and its terminator. */
  ghost predicate Untouched(data: array<char>, content: string, p: nat)
    reads data
  {
    && p <= |content| < data.Length && NUL !in content && data[|content|] == NUL
    && forall k :: p <= k < |content| ==> data[k] == content[k]
  }

  /** The first loop of strtok. */
  method SkipFrom(data: array<char>, p: nat, ghost content: string) returns (start: nat)
    requires Untouched(data, content, p)
    ensures start <= |content| && start == SkipDelimiters(content, p)
  {
    start := p;
    while data[start] == ';'
      invariant p <= start <= |content| && SkipDelimiters(content, p) == SkipDelimiters(content, start)
      decreases |content| - start
    {
      start := start + 1;
    }
  }

  /** The second loop of strtok. */
  method EndFrom(data: array<char>, start: nat, ghost content: string) returns (end: nat)
    requires Untouched(data, content, start)
    ensures end <= |content| && end == TokenEnd(content, start)
    ensures data[end] == if end < |content| then content[end] else NUL
  {
    end := start;
    while data[end] != NUL && data[end] != ';'
      invariant start <= end <= |content| && TokenEnd(content, start) == TokenEnd(content, end)
      decreases |content| - end
    {
      end := end + 1;
    }
  }

  /** strtok, continuing at `p`; it cuts the buffer by writing a terminator over the delimiter. */
  method Strtok(data: array<char>, p: nat, ghost content: string) returns (found: bool, token: string, save: nat)
    requires Untouched(data, content, p)
    modifies data
    ensures Untouched(data, content, save) && p <= save
    ensures found ==> p < save && Tokens(content, p) == [token] + Tokens(content, save)
    ensures !found ==> Tokens(content, p) == []
  {
    var start := SkipFrom(data, p, content);
    if data[start] == NUL {
      return false, "", start;
    }
    var end := EndFrom(data, start, content);
    TokensUnfold(content, p, start, end);
    token := data[start..end];
    assert token == content[start..end];
    save := end;
    if data[end] != NUL {
      data[end] := NUL;
      save := end + 1;
    }
    found := true;
  }

  /** com_receive_tc: `sent` is what reaches the dispatcher queue, in order. */
  method ReceiveTc(repo: Repo, data: array<char>, length: nat) returns (sent: seq<Sent>)
    requires repo.list.Length == MAX_ENTRIES && length < data.Length
    modifies data
    ensures sent == SendAll(repo.list[..], Tokens(CString(old(data[..length])), 0))
  {
    hide SkipDelimiters, TokenEnd, Tokens, Parse;
    data[length] := NUL;
    ghost var table, content := repo.list[..], CString(data[..length]);
    sent := [];
    var found, token, p := Strtok(data, 0, content);
    ghost var all, left := SendAll(table, Tokens(content, 0)), Tokens(content, 0);
    while found
      invariant Untouched(data, content, p)
      invariant left == if found then [token] + Tokens(content, p) else []
      invariant sent + SendAll(table, left) == all
      decreases |content| - p + if found then 1 else 0
    {
      var command := ParseFromStr(repo, token);
      left := Tokens(content, p);
      SendNext(table, sent, token, left, all);
      if command.Some? {
        sent := sent + [command.value];
      }
      found, token, p := Strtok(data, p, content);
    }
  }

  /** Parsing and sending one piece keeps sent plus still to send. */
  lemma {:induction false} SendNext(table: seq<Command>, sent: seq<Sent>, token: string, rest: seq<string>, all: seq<Sent>)
    requires sent + SendAll(table, [token] + rest) == all
    ensures var command := Parse(table, token);
      (if command.Some? then sent + [command.value] else sent) + SendAll(table, rest) == all
  {}

  // ------------------------------------------------------------------------------------
  // Round trip.

  /** A telecommand as ground writes it. */
  datatype Tc = Tc(name: string, params: string)

  function Render(c: Tc): string {
    if c.params == "" then c.name else c.name + " " + c.params
  }

  function Frame(cs: seq<Tc>): string {
    if cs == [] then ""
    else if |cs| == 1 then Render(cs[0])
    else Render(cs[0]) + ";" + Frame(cs[1..])
  }

  predicate WellFormed(c: Tc) {
    && c.name != "" && (forall k :: 0 <= k < |c.name| ==> !IsSpace(c.name[k]) && c.name[k] != ';' && c.name[k] != NUL)
    && (forall k :: 0 <= k < |c.params| ==> c.params[k] != ';' && c.params[k] != NUL)
    && (c.params != "" ==> !IsSpace(c.params[0])) && |c.params| <= MAX_PARAMS
  }

  /** What should be sent: for every command whose name is in the table, in order, format, function and parameter count
      of the first entry of that name, and the parameters or NULL. */
  function Expected(table: seq<Command>, cs: seq<Tc>): seq<Sent> {
    if cs == [] then []
    else
      var i, rest := FirstNamed(table, cs[0].name), Expected(table, cs[1..]);
      if i < 0 then rest
      else
        [Sent(Request(i, table[i].fmt, table[i].handler, table[i].nparams),
              if cs[0].params == "" then NoParams else Text(cs[0].params))] + rest
  }

  lemma {:induction false} WordIs(s: string, n: nat)
    requires n <= |s| && (forall k :: 0 <= k < n ==> !IsSpace(s[k])) && (n < |s| ==> IsSpace(s[n]))
    ensures Word(s) == n
  {
    if n > 0 { WordIs(s[1..], n - 1); }
  }

  lemma {:induction false} SpacesAre(s: string, n: nat)
    requires n <= |s| && (forall k :: 0 <= k < n ==> IsSpace(s[k])) && (n < |s| ==> !IsSpace(s[n]))
    ensures Spaces(s) == n
  {
    if n > 0 { SpacesAre(s[1..], n - 1); }
  }

  predicate Blank(s: string) {
    forall k :: 0 <= k < |s| ==> IsSpace(s[k])
  }

  predicate SpaceFree(s: string) {
    forall k :: 0 <= k < |s| ==> !IsSpace(s[k])
  }

  /** What parsing means, for every way of spacing a command: the word finds the command, and everything from the
      next word on is its parameters. Every text that is not blank has one such reading. */
  lemma {:induction false} ParseMeans(table: seq<Command>, lead: string, name: string, gap: string, params: string)
    requires Blank(lead) && name != "" && SpaceFree(name) && Blank(gap)
    requires params != "" ==> gap != "" && !IsSpace(params[0])
    ensures Parse(table, lead) == None
    ensures Parse(table, lead + (name + (gap + params))) == var request := Found(table, name);
      if request.NotFound? then None else Some(Sent(request, AddParams(params)))
  {
    var tail := gap + params;
    var rest := name + tail;
    SpacesAre(lead + rest, |lead|);
    SpacesAre(lead, |lead|);
    WordIs(rest, |name|);
    SpacesAre(tail, |gap|);
    assert (lead + rest)[|lead|..] == rest;
    assert rest[..|name|] == name && rest[|name|..] == tail;
    assert tail[|gap|..] == params;
  }

  lemma {:induction false} EveryTextReads(s: string) returns (lead: string, name: string, gap: string, params: string)
    ensures s == lead + (name + (gap + params)) && Blank(lead) && SpaceFree(name) && Blank(gap)
    ensures (params != "" ==> gap != "" && !IsSpace(params[0])) && (name == "" <==> Blank(s))
  {
    var rest, tail;
    lead, rest := SplitSpaces(s);
    name, tail := SplitWord(rest);
    gap, params := SplitSpaces(tail);
    if name != "" {
      assert s[|lead|] == rest[0] == name[0];
    }
  }

  lemma {:induction false} SplitSpaces(s: string) returns (a: string, b: string)
    ensures s == a + b && Blank(a) && (b != "" ==> !IsSpace(b[0]))
  {
    a, b := "", s;
    if s != "" && IsSpace(s[0]) {
      a, b := SplitSpaces(s[1..]);
      a := [s[0]] + a;
    }
  }

  lemma {:induction false} SplitWord(s: string) returns (a: string, b: string)
    ensures s == a + b && SpaceFree(a) && (b != "" ==> IsSpace(b[0]))
    ensures s != "" && !IsSpace(s[0]) ==> a != ""
  {
    a, b := "", s;
    if s != "" && !IsSpace(s[0]) {
      a, b := SplitWord(s[1..]);
      a := [s[0]] + a;
    }
  }

  lemma {:induction false} ParseRendered(table: seq<Command>, c: Tc)
    requires WellFormed(c)
    ensures Parse(table, Render(c)) == var request := Found(table, c.name);
      if request.NotFound? then None
      else Some(Sent(request, if c.params == "" then NoParams else Text(c.params)))
  {
    var buff, n := Render(c), |c.name|;
    WordIs(buff, n);
    assert buff[..n] == c.name;
    if c.params != "" {
      var next := buff[n..];
      assert Spaces(c.params) == 0 && Spaces(next) == 1;
    }
  }

  function Rendered(cs: seq<Tc>): seq<string> {
    if cs == [] then [] else [Render(cs[0])] + Rendered(cs[1..])
  }

  predicate IsToken(r: string) {
    r != "" && forall k :: 0 <= k < |r| ==> r[k] != ';'
  }

  /** `t` ends in `s`, from position `n` on. */
  ghost predicate EndsIn(t: string, s: string, n: nat) {
    |t| == n + |s| && forall k :: 0 <= k < |s| ==> t[n + k] == s[k]
  }

  lemma {:induction false} ShiftSkip(t: string, s: string, n: nat, p: nat)
    requires EndsIn(t, s, n) && p <= |s|
    ensures SkipDelimiters(t, n + p) == n + SkipDelimiters(s, p)
    decreases |s| - p
  {
    if p < |s| && s[p] == ';' { ShiftSkip(t, s, n, p + 1); }
  }

  lemma {:induction false} ShiftEnd(t: string, s: string, n: nat, p: nat)
    requires EndsIn(t, s, n) && p <= |s|
    ensures TokenEnd(t, n + p) == n + TokenEnd(s, p)
    decreases |s| - p
  {
    if p < |s| && s[p] != ';' { ShiftEnd(t, s, n, p + 1); }
  }

  lemma {:induction false} ShiftSlice(t: string, s: string, n: nat, a: nat, b: nat)
    requires EndsIn(t, s, n) && a <= b <= |s|
    ensures t[n + a..n + b] == s[a..b]
  {}

  lemma {:induction false} TokensUnfold(s: string, p: nat, start: nat, end: nat)
    requires p <= |s| && start == SkipDelimiters(s, p) < |s| && end == TokenEnd(s, start)
    ensures Tokens(s, p) == [s[start..end]] + Tokens(s, if end < |s| then end + 1 else end)
  {}

  /** One step of `ShiftTokens`. */
  lemma {:induction false} ShiftToken(t: string, s: string, n: nat, p: nat, next: nat)
    requires EndsIn(t, s, n) && p <= |s| && SkipDelimiters(s, p) < |s|
    requires next == (var end := TokenEnd(s, SkipDelimiters(s, p)); if end < |s| then end + 1 else end)
    requires Tokens(t, n + next) == Tokens(s, next)
    ensures Tokens(t, n + p) == Tokens(s, p)
  {
    hide SkipDelimiters, TokenEnd, Tokens;
    ShiftSkip(t, s, n, p);
    var start := SkipDelimiters(s, p);
    ShiftEnd(t, s, n, start);
    var end := TokenEnd(s, start);
    ShiftSlice(t, s, n, start, end);
    TokensUnfold(s, p, start, end);
    TokensUnfold(t, n + p, n + start, n + end);
    assert (if n + end < |t| then n + end + 1 else n + end) == n + next;
  }

  /** The tokens behind a prefix are the tokens of the rest. */
  lemma {:induction false} ShiftTokens(t: string, s: string, n: nat, p: nat)
    requires EndsIn(t, s, n) && p <= |s|
    ensures Tokens(t, n + p) == Tokens(s, p)
    decreases |s| - p
  {
    ShiftSkip(t, s, n, p);
    var start := SkipDelimiters(s, p);
    if start < |s| {
      var end := TokenEnd(s, start);
      var next := if end < |s| then end + 1 else end;
      ShiftTokens(t, s, n, next);
      ShiftToken(t, s, n, p, next);
    }
  }

  /** `s` starts with `r` and then ends or goes on with a delimiter. */
  ghost predicate StartsWith(s: string, r: string) {
    |r| <= |s| && s[..|r|] == r && (|r| == |s| || s[|r|] == ';')
  }

  lemma {:induction false} EndOfToken(s: string, r: string, p: nat)
    requires IsToken(r) && StartsWith(s, r) && p <= |r|
    ensures TokenEnd(s, p) == |r|
    decreases |r| - p
  {
    if p < |r| {
      assert s[p] == r[p];
      EndOfToken(s, r, p + 1);
    }
  }

  lemma {:induction false} OneToken(r: string)
    requires IsToken(r)
    ensures Tokens(r, 0) == [r]
  {
    EndOfToken(r, r, 0);
  }

  lemma {:induction false} FirstTokenOf(s: string, r: string, rest: string)
    requires IsToken(r) && StartsWith(s, r) && EndsIn(s, rest, |r| + 1)
    ensures Tokens(s, 0) == [r] + Tokens(rest, 0)
  {
    EndOfToken(s, r, 0);
    assert s[0] == r[0];
    TokensUnfold(s, 0, 0, |r|);
    ShiftTokens(s, rest, |r| + 1, 0);
  }

  lemma {:induction false} FirstToken(r: string, rest: string)
    requires IsToken(r)
    ensures Tokens(r + ";" + rest, 0) == [r] + Tokens(rest, 0)
  {
    FirstTokenOf(r + ";" + rest, r, rest);
  }

  /** What strtok means, with `OneToken` and the first two clauses here: cutting at a delimiter, wherever it is, gives the
      tokens of what is before it and then the tokens of what is after it. Empty pieces yield nothing. */
  lemma {:induction false} TokensSplit(a: string, b: string)
    ensures Tokens("", 0) == [] && Tokens(";" + b, 0) == Tokens(b, 0)
    ensures Tokens(a + ";" + b, 0) == Tokens(a, 0) + Tokens(b, 0)
  {
    SplitFrom("", b, 0);
    SplitFrom(a, b, 0);
    assert "" + ";" + b == ";" + b;
  }

  lemma {:induction false} SplitFrom(a: string, b: string, p: nat)
    requires p <= |a|
    ensures Tokens(a + ";" + b, p) == Tokens(a, p) + Tokens(b, 0)
    decreases |a| - p
  {
    hide SkipDelimiters, TokenEnd, Tokens;
    var s := a + ";" + b;
    SkipInFront(a, s, p);
    var start := SkipDelimiters(a, p);
    ShiftTokens(s, b, |a| + 1, 0);
    if start == |a| {
      AllSkipped(a, p);
      SameSkip(s, p, |a| + 1);
    } else {
      var end := TokenEnd(a, start);
      FirstInFront(a, s, p);
      if end < |a| {
        SplitFrom(a, b, end + 1);
      } else {
        NoTokens(a);
      }
    }
  }

  /** The first token of `a` is also the first one of what starts with `a` and a delimiter. */
  lemma {:induction false} FirstInFront(a: string, s: string, p: nat)
    requires InFront(a, s) && p <= |a| && SkipDelimiters(a, p) < |a|
    ensures var start := SkipDelimiters(a, p);
      var end := TokenEnd(a, start);
      && Tokens(s, p) == [a[start..end]] + Tokens(s, end + 1)
      && Tokens(a, p) == [a[start..end]] + Tokens(a, if end < |a| then end + 1 else end)
  {
    hide SkipDelimiters, TokenEnd, Tokens;
    SkipInFront(a, s, p);
    var start := SkipDelimiters(a, p);
    EndInFront(a, s, start);
    var end := TokenEnd(a, start);
    TokensUnfold(s, p, start, end);
    TokensUnfold(a, p, start, end);
    SliceInFront(a, s, start, end);
  }

  lemma {:induction false} SliceInFront(a: string, s: string, lo: nat, hi: nat)
    requires InFront(a, s) && lo <= hi <= |a|
    ensures s[lo..hi] == a[lo..hi]
  {
    forall k | lo <= k < hi ensures s[k] == a[k] {
      assert s[..|a|][k] == s[k];
    }
  }

  lemma {:induction false} AllSkipped(a: string, p: nat)
    requires p <= |a| && SkipDelimiters(a, p) == |a|
    ensures Tokens(a, p) == []
  {}

  lemma {:induction false} NoTokens(a: string)
    ensures Tokens(a, |a|) == []
  {}

  /** `s` starts with `a` and a delimiter. */
  ghost predicate InFront(a: string, s: string) {
    |a| < |s| && s[..|a|] == a && s[|a|] == ';'
  }

  lemma {:induction false} SkipInFront(a: string, s: string, p: nat)
    requires InFront(a, s) && p <= |a|
    ensures SkipDelimiters(s, p) ==
      if SkipDelimiters(a, p) < |a| then SkipDelimiters(a, p) else SkipDelimiters(s, |a| + 1)
    decreases |a| - p
  {
    if p < |a| {
      assert s[p] == a[p];
      if a[p] == ';' { SkipInFront(a, s, p + 1); }
    }
  }

  lemma {:induction false} EndInFront(a: string, s: string, p: nat)
    requires InFront(a, s) && p <= |a|
    ensures TokenEnd(s, p) == TokenEnd(a, p)
    decreases |a| - p
  {
    if p < |a| {
      assert s[p] == a[p];
      if a[p] != ';' { EndInFront(a, s, p + 1); }
    }
  }

  lemma {:induction false} SameSkip(s: string, p: nat, q: nat)
    requires p <= |s| && q <= |s| && SkipDelimiters(s, p) == SkipDelimiters(s, q)
    ensures Tokens(s, p) == Tokens(s, q)
  {}

  lemma {:induction false} FrameTokens(cs: seq<Tc>)
    requires forall i :: 0 <= i < |cs| ==> WellFormed(cs[i])
    ensures Tokens(Frame(cs), 0) == Rendered(cs)
  {
    if cs != [] {
      if |cs| == 1 {
        OneToken(Render(cs[0]));
      } else {
        FirstToken(Render(cs[0]), Frame(cs[1..]));
        FrameTokens(cs[1..]);
      }
    }
  }

  lemma {:induction false} FrameHasNoNul(cs: seq<Tc>)
    requires forall i :: 0 <= i < |cs| ==> WellFormed(cs[i])
    ensures NUL !in Frame(cs)
  {
    if cs != [] {
      FrameHasNoNul(cs[1..]);
    }
  }

  lemma {:induction false} WholeCString(s: string)
    requires NUL !in s
    ensures CString(s) == s
  {}

  /** Receiving a frame of well-formed telecommands sends exactly the registered ones, in order,
      each with the parameters that ground wrote. */
  lemma {:induction false} FrameRoundTrip(table: seq<Command>, cs: seq<Tc>)
    requires forall i :: 0 <= i < |cs| ==> WellFormed(cs[i])
    ensures SendAll(table, Tokens(CString(Frame(cs)), 0)) == Expected(table, cs)
  {
    FrameHasNoNul(cs);
    WholeCString(Frame(cs));
    FrameTokens(cs);
    SendRendered(table, cs);
  }

  function Semicolons(n: nat): (s: string)
    ensures |s| == n && NUL !in s
  {
    if n == 0 then "" else ";" + Semicolons(n - 1)
  }

  /** A frame with `seps[i]` delimiters before command `i`, and the last of `seps` behind the last command. */
  function Padded(cs: seq<Tc>, seps: seq<nat>): string
    requires |seps| == |cs| + 1
  {
    if cs == [] then Semicolons(seps[0])
    else Semicolons(seps[0]) + Render(cs[0]) + Padded(cs[1..], seps[1..])
  }

  /** At least one delimiter between any two commands. */
  predicate Separated(cs: seq<Tc>, seps: seq<nat>) {
    |seps| == |cs| + 1 && forall i :: 0 < i < |cs| ==> seps[i] >= 1
  }

  lemma {:induction false} OneSemicolonMore(n: nat, s: string)
    requires n > 0
    ensures Semicolons(n) + s == ";" + (Semicolons(n - 1) + s)
  {}

  lemma {:induction false} SkipSemicolons(n: nat, s: string)
    ensures Tokens(Semicolons(n) + s, 0) == Tokens(s, 0)
  {
    hide Tokens;
    if n > 0 {
      OneSemicolonMore(n, s);
      hide Semicolons;
      SkipSemicolons(n - 1, s);
      TokensSplit("", Semicolons(n - 1) + s);
    } else {
      assert Semicolons(0) + s == s;
    }
  }

  /** A command in front of a frame that is empty or starts with a delimiter. */
  lemma {:induction false} TokenInFront(r: string, rest: string)
    requires IsToken(r) && (rest == "" || rest[0] == ';')
    ensures Tokens(r + rest, 0) == [r] + Tokens(rest, 0)
  {
    if rest == "" {
      assert r + rest == r;
      OneToken(r);
      NoTokens("");
    } else {
      var b := rest[1..];
      assert r + rest == r + ";" + b && rest == ";" + b;
      OneToken(r);
      TokensSplit(r, b);
    }
  }

  lemma {:induction false} PaddedStarts(cs: seq<Tc>, seps: seq<nat>)
    requires |seps| == |cs| + 1 && (cs != [] ==> seps[0] >= 1)
    ensures Padded(cs, seps) == "" || Padded(cs, seps)[0] == ';'
  {
    if seps[0] > 0 { assert Semicolons(seps[0])[0] == ';'; }
  }

  lemma {:induction false} RenderIsToken(c: Tc)
    requires WellFormed(c)
    ensures IsToken(Render(c)) && NUL !in Render(c)
  {}

  lemma {:induction false} PaddedTokens(cs: seq<Tc>, seps: seq<nat>)
    requires Separated(cs, seps) && forall i :: 0 <= i < |cs| ==> WellFormed(cs[i])
    ensures Tokens(Padded(cs, seps), 0) == Rendered(cs) && NUL !in Padded(cs, seps)
  {
    if cs == [] {
      SkipSemicolons(seps[0], "");
      assert Semicolons(seps[0]) + "" == Semicolons(seps[0]);
      NoTokens("");
    } else {
      var r, rest := Render(cs[0]), Padded(cs[1..], seps[1..]);
      PaddedTokens(cs[1..], seps[1..]);
      RenderIsToken(cs[0]);
      PaddedStarts(cs[1..], seps[1..]);
      TokenInFront(r, rest);
      SkipSemicolons(seps[0], r + rest);
      assert Padded(cs, seps) == Semicolons(seps[0]) + (r + rest);
    }
  }

  /** The same for frames with any number of delimiters before, between and after the commands: empty pieces are
      skipped and no command behind one is lost. */
  lemma {:induction false} PaddedRoundTrip(table: seq<Command>, cs: seq<Tc>, seps: seq<nat>)
    requires Separated(cs, seps) && forall i :: 0 <= i < |cs| ==> WellFormed(cs[i])
    ensures SendAll(table, Tokens(CString(Padded(cs, seps)), 0)) == Expected(table, cs)
  {
    PaddedTokens(cs, seps);
    WholeCString(Padded(cs, seps));
    SendRendered(table, cs);
  }

  lemma {:induction false} SendRendered(table: seq<Command>, cs: seq<Tc>)
    requires forall i :: 0 <= i < |cs| ==> WellFormed(cs[i])
    ensures SendAll(table, Rendered(cs)) == Expected(table, cs)
  {
    if cs != [] {
      ParseRendered(table, cs[0]);
      SendRendered(table, cs[1..]);
    }
  }
}
