/** The awk program that turns the API documentation's role tables into `role|note` rows. */
module RoleTable {

  // ---- Strings ----

  /** The characters that the trim helpers remove. */
  predicate Blank(c: char) {
    c == ' ' || c == '\t' || c == '\r' || c == '\n'
  }

  /** The characters that the patterns' \s matches: form feed and vertical tab too. */
  predicate White(c: char) {
    Blank(c) || c == '\U{000C}' || c == '\U{000B}'
  }

  function LTrim(s: string): string {
    if s != "" && Blank(s[0]) then LTrim(s[1..]) else s
  }

  function RTrim(s: string): string {
    if s != "" && Blank(s[|s| - 1]) then RTrim(s[..|s| - 1]) else s
  }

  function Trim(s: string): string {
    RTrim(LTrim(s))
  }

  ghost predicate Trimmed(s: string) {
    s == "" || (!Blank(s[0]) && !Blank(s[|s| - 1]))
  }

  predicate PipeFree(s: string) {
    '|' !in s
  }

  lemma {:induction false} LTrimShape(s: string)
    ensures LTrim(s) == "" || !Blank(LTrim(s)[0])
    ensures forall c <- LTrim(s) :: c in s
  {
    if s != "" && Blank(s[0]) {
      LTrimShape(s[1..]);
    }
  }

  lemma {:induction false} RTrimShape(s: string)
    ensures RTrim(s) <= s
    ensures RTrim(s) == "" || !Blank(RTrim(s)[|RTrim(s)| - 1])
  {
    if s != "" && Blank(s[|s| - 1]) {
      RTrimShape(s[..|s| - 1]);
    }
  }

  lemma TrimShape(s: string)
    ensures Trimmed(Trim(s)) && (PipeFree(s) ==> PipeFree(Trim(s)))
  {
    LTrimShape(s);
    RTrimShape(LTrim(s));
    assert forall c <- Trim(s) :: c in LTrim(s);
  }

  lemma TrimIdle(s: string)
    requires Trimmed(s)
    ensures Trim(s) == s
  {
  }

  ghost predicate AllBlank(s: string) {
    forall c <- s :: Blank(c)
  }

  lemma {:induction false} LTrimCuts(s: string)
    ensures exists left :: AllBlank(left) && s == left + LTrim(s)
  {
    if s != "" && Blank(s[0]) {
      LTrimCuts(s[1..]);
      var left :| AllBlank(left) && s[1..] == left + LTrim(s[1..]);
      assert AllBlank([s[0]] + left) && s == ([s[0]] + left) + LTrim(s);
    } else {
      assert AllBlank("") && s == "" + LTrim(s);
    }
  }

  lemma {:induction false} RTrimCuts(s: string)
    ensures exists right :: AllBlank(right) && s == RTrim(s) + right
  {
    if s != "" && Blank(s[|s| - 1]) {
      RTrimCuts(s[..|s| - 1]);
      var right :| AllBlank(right) && s[..|s| - 1] == RTrim(s[..|s| - 1]) + right;
      assert AllBlank(right + [s[|s| - 1]]) && s == RTrim(s) + (right + [s[|s| - 1]]);
    } else {
      assert AllBlank("") && s == RTrim(s) + "";
    }
  }

  /** Blanks are spaces, tabs, carriage returns and line feeds. */
  lemma BlankExactly(c: char)
    ensures AllBlank([c]) <==> c == ' ' || c == '\t' || c == '\r' || c == '\n'
  {
    assert [c][0] in [c];
  }

  /** Trimming cuts blanks off both ends and nothing else. */
  lemma TrimCutsBlanks(s: string)
    ensures Trim(s) == "" || (!AllBlank([Trim(s)[0]]) && !AllBlank([Trim(s)[|Trim(s)| - 1]]))
    ensures exists left, right :: AllBlank(left) && AllBlank(right) && s == left + Trim(s) + right
  {
    TrimShape(s);
    if Trim(s) != "" {
      BlankExactly(Trim(s)[0]);
      BlankExactly(Trim(s)[|Trim(s)| - 1]);
    }
    TrimCuts(s);
  }

  lemma TrimCuts(s: string)
    ensures exists left, right :: AllBlank(left) && AllBlank(right) && s == left + Trim(s) + right
  {
    LTrimCuts(s);
    RTrimCuts(LTrim(s));
    var left :| AllBlank(left) && s == left + LTrim(s);
    var right :| AllBlank(right) && LTrim(s) == Trim(s) + right;
    assert s == left + (Trim(s) + right);
    assert s == left + Trim(s) + right;
  }

  // ---- Fields ----

  /** The fields of a non-empty record. */
  function Fields(line: string): (fields: seq<string>)
    ensures |fields| > 0
  {
    if line == "" then [""]
    else
      var rest := Fields(line[1..]);
      if line[0] == '|' then [""] + rest else [[line[0]] + rest[0]] + rest[1..]
  }

  lemma {:induction false} FieldsPipeFree(line: string)
    ensures forall i :: 0 <= i < |Fields(line)| ==> PipeFree(Fields(line)[i])
  {
    if line != "" {
      FieldsPipeFree(line[1..]);
    }
  }

  function Rejoined(fields: seq<string>): string
    requires |fields| > 0
  {
    if |fields| == 1 then fields[0] else fields[0] + "|" + Rejoined(fields[1..])
  }

  /** The fields are what lies between the bars: joining them with bars gives the line again. */
  lemma {:induction false} FieldsRejoin(line: string)
    ensures Rejoined(Fields(line)) == line
  {
    if line != "" {
      var rest := Fields(line[1..]);
      FieldsRejoin(line[1..]);
      if line[0] == '|' {
        assert ([""] + rest)[1..] == rest;
      } else if |rest| > 1 {
        assert ([[line[0]] + rest[0]] + rest[1..])[1..] == rest[1..];
        assert Rejoined(Fields(line)) == [line[0]] + Rejoined(rest);
      }
    }
  }

  lemma {:induction false} FieldsOfPlain(s: string)
    requires PipeFree(s)
    ensures Fields(s) == [s]
  {
    if s != "" {
      FieldsOfPlain(s[1..]);
      assert [s[0]] + s[1..] == s;
    }
  }

  lemma {:induction false} FieldsOfRow(role: string, note: string)
    requires PipeFree(role) && PipeFree(note)
    ensures Fields(role + "|" + note) == [role, note]
  {
    var row := role + "|" + note;
    if role == "" {
      assert row[1..] == note;
      FieldsOfPlain(note);
    } else {
      assert row[1..] == role[1..] + "|" + note;
      FieldsOfRow(role[1..], note);
      assert [role[0]] + role[1..] == role;
    }
  }

  function NonEmpty(fields: seq<string>): seq<string> {
    if fields == [] then []
    else (if fields[0] == "" then [] else [fields[0]]) + NonEmpty(fields[1..])
  }

  /** The first non-empty field, trimmed. */
  function RoleOf(fields: seq<string>): string {
    var full := NonEmpty(fields);
    if |full| == 0 then "" else Trim(full[0])
  }

  /** The last of the other non-empty fields, trimmed. */
  function NoteOf(fields: seq<string>): string {
    var full := NonEmpty(fields);
    if |full| < 2 then "" else Trim(full[|full| - 1])
  }

  lemma {:induction false} NonEmptyAppend(fields: seq<string>, field: string)
    ensures NonEmpty(fields + [field]) == NonEmpty(fields) + if field == "" then [] else [field]
  {
    if fields != [] {
      assert (fields + [field])[1..] == fields[1..] + [field];
      NonEmptyAppend(fields[1..], field);
    }
  }

  ghost predicate FirstFull(fields: seq<string>, i: int) {
    0 <= i < |fields| && fields[i] != "" && forall k :: 0 <= k < i ==> fields[k] == ""
  }

  ghost predicate LastFull(fields: seq<string>, j: int) {
    0 <= j < |fields| && fields[j] != "" && forall k :: j < k < |fields| ==> fields[k] == ""
  }

  lemma {:induction false} NonEmptyEnds(fields: seq<string>, i: int, j: int)
    requires FirstFull(fields, i) && LastFull(fields, j)
    ensures var full := NonEmpty(fields);
            full != [] && full[0] == fields[i] && full[|full| - 1] == fields[j] && (|full| == 1 <==> i == j)
    decreases |fields|
  {
    var rest := fields[1..];
    assert forall k :: 0 <= k < |rest| ==> rest[k] == fields[k + 1];
    if i > 0 {
      NonEmptyEnds(rest, i - 1, j - 1);
    } else if j == 0 {
      AllEmpty(rest);
    } else {
      FirstFullExists(rest, j - 1);
      var first :| FirstFull(rest, first);
      NonEmptyEnds(rest, first, j - 1);
    }
  }

  lemma {:induction false} AllEmpty(fields: seq<string>)
    requires forall k :: 0 <= k < |fields| ==> fields[k] == ""
    ensures NonEmpty(fields) == []
  {
    if fields != [] {
      AllEmpty(fields[1..]);
    }
  }

  lemma {:induction false} FirstFullExists(fields: seq<string>, j: nat)
    requires j < |fields| && fields[j] != ""
    ensures exists i :: FirstFull(fields, i)
    decreases |fields|
  {
    if fields[0] != "" {
      assert FirstFull(fields, 0);
    } else {
      FirstFullExists(fields[1..], j - 1);
      var i :| FirstFull(fields[1..], i);
      assert forall k :: 0 < k <= i + 1 ==> fields[k] == fields[1..][k - 1];
      assert FirstFull(fields, i + 1);
    }
  }

  /** The role is the first field that is not empty, and the note the last one if that is another,
      both trimmed. */
  lemma ScannedExactly(fields: seq<string>, i: nat, j: nat)
    requires FirstFull(fields, i) && LastFull(fields, j)
    ensures RoleOf(fields) == Trim(fields[i])
    ensures NoteOf(fields) == if i == j then "" else Trim(fields[j])
  {
    NonEmptyEnds(fields, i, j);
  }

  /** There are such fields, unless all are empty; then there is no role and no note. */
  lemma ScannedOrEmpty(fields: seq<string>)
    ensures (exists i, j :: FirstFull(fields, i) && LastFull(fields, j)) || RoleOf(fields) == NoteOf(fields) == ""
  {
    if k :| 0 <= k < |fields| && fields[k] != "" {
      FirstFullExists(fields, k);
      LastFullExists(fields, k);
    } else {
      AllEmpty(fields);
    }
  }

  lemma {:induction false} LastFullExists(fields: seq<string>, i: nat)
    requires i < |fields| && fields[i] != ""
    ensures exists j :: LastFull(fields, j)
    decreases |fields| - i
  {
    if k :| i < k < |fields| && fields[k] != "" {
      LastFullExists(fields, k);
    } else {
      assert LastFull(fields, i);
    }
  }

  /** The field loop. */
  method ScanFields(fields: seq<string>) returns (role: string, note: string)
    ensures role == RoleOf(fields) && note == NoteOf(fields)
  {
    var roleIndex := 0;
    role, note := "", "";
    for i := 1 to |fields| + 1
      invariant roleIndex == 0 <==> NonEmpty(fields[..i - 1]) == []
      invariant role == RoleOf(fields[..i - 1]) && note == NoteOf(fields[..i - 1])
    {
      assert fields[..i] == fields[..i - 1] + [fields[i - 1]];
      NonEmptyAppend(fields[..i - 1], fields[i - 1]);
      if fields[i - 1] == "" { continue; }
      if roleIndex == 0 {
        roleIndex := i;
        role := fields[i - 1];
        role := Trim(role);
      } else {
        note := fields[i - 1];
        note := Trim(note);
      }
    }
    assert fields[..|fields|] == fields;
  }

  // ---- The patterns ----

  predicate Contains(line: string, word: string) {
    word <= line || (line != "" && Contains(line[1..], word))
  }

  lemma {:induction false} ContainsExactly(line: string, word: string)
    ensures Contains(line, word) <==> exists left, right :: line == left + word + right
    decreases |line|
  {
    if word <= line {
      assert line == "" + word + line[|word|..];
    } else if line != "" {
      ContainsExactly(line[1..], word);
      if left, right :| line[1..] == left + word + right {
        assert line == ([line[0]] + left) + word + right;
      }
      if left, right :| line == left + word + right {
        assert left != "";
        assert line[1..] == left[1..] + word + right;
      }
    } else {
      assert word != "";
      assert forall left, right :: |left + word + right| > 0;
    }
  }

  predicate StartsTable(line: string) {
    Contains(line, "Permitted roles") || Contains(line, "Permitted Roles")
  }

  function SkipWhite(s: string): string {
    if s != "" && White(s[0]) then SkipWhite(s[1..]) else s
  }

  /** What follows an optional bar and white space. */
  function Body(line: string): string {
    SkipWhite(if "|" <= line then line[1..] else line)
  }

  predicate IsRule(line: string) {
    "--" <= Body(line)
  }

  predicate IsHeading(line: string) {
    "Role" <= Body(line)
    && var rest := Body(line)[4..];
    "|" <= SkipWhite(if "s" <= rest then rest[1..] else rest)
  }

  /** A bar somewhere after the first character. */
  predicate IsRow(line: string) {
    line != "" && '|' in line[1..]
  }

  // ---- The patterns spelled out ----

  // The first pattern: Permitted roles, or Permitted Roles, anywhere.
  lemma StartsTableExactly(line: string)
    ensures StartsTable(line)
            <==> exists left, right :: line == left + "Permitted roles" + right || line == left + "Permitted Roles" + right
  {
    ContainsExactly(line, "Permitted roles");
    ContainsExactly(line, "Permitted Roles");
  }

  /** What the patterns' white space is. */
  ghost predicate Spaces(s: string) {
    forall c <- s :: c == ' ' || c == '\t' || c == '\r' || c == '\n' || c == '\U{000C}' || c == '\U{000B}'
  }

  /** Skipping white space leaves the first other character in front. */
  lemma {:induction false} SkipWhiteExactly(s: string)
    ensures exists white :: Spaces(white) && s == white + SkipWhite(s)
    ensures SkipWhite(s) == "" || !Spaces([SkipWhite(s)[0]])
  {
    if s != "" && White(s[0]) {
      SkipWhiteExactly(s[1..]);
      var white :| Spaces(white) && s[1..] == white + SkipWhite(s[1..]);
      assert Spaces([s[0]] + white) && s == ([s[0]] + white) + SkipWhite(s);
    } else {
      assert Spaces("") && s == "" + SkipWhite(s);
      if s != "" {
        assert [s[0]][0] in [s[0]];
      }
    }
  }

  lemma {:induction false} SkipWhiteSkips(white: string, rest: string)
    requires Spaces(white) && (rest == "" || !Spaces([rest[0]]))
    ensures SkipWhite(white + rest) == rest
  {
    if white != "" {
      assert (white + rest)[0] == white[0] && white[0] in white && (white + rest)[1..] == white[1..] + rest;
      assert forall c <- white[1..] :: c in white;
      SkipWhiteSkips(white[1..], rest);
    } else {
      assert white + rest == rest;
      assert forall c :: White(c) ==> Spaces([c]);
    }
  }

  /** The line is an optional bar, white space, and then `rest`. */
  ghost predicate Leads(line: string, white: string, rest: string) {
    Spaces(white) && (line == white + rest || line == "|" + (white + rest))
  }

  lemma BodyLeads(line: string)
    ensures exists white :: Leads(line, white, Body(line))
  {
    var inner := if "|" <= line then line[1..] else line;
    SkipWhiteExactly(inner);
    var white :| Spaces(white) && inner == white + SkipWhite(inner);
    assert "|" <= line ==> line == "|" + inner;
    assert Leads(line, white, Body(line));
  }

  lemma BodyIsRest(line: string, white: string, rest: string)
    requires Leads(line, white, rest) && rest != "" && rest[0] != '|' && !Spaces([rest[0]])
    ensures Body(line) == rest
  {
    if line == "|" + (white + rest) {
      assert line[0] == '|' && line[1..] == white + rest;
    } else {
      assert line[0] == (white + rest)[0];
      assert white != "" ==> (white + rest)[0] == white[0] && white[0] in white;
      assert !("|" <= line);
    }
    SkipWhiteSkips(white, rest);
  }

  // The second: an optional bar, white space, two dashes.
  lemma RuleLeads(line: string)
    requires IsRule(line)
    ensures exists white, rest :: Leads(line, white, "--" + rest)
  {
    BodyLeads(line);
    var white :| Leads(line, white, Body(line));
    AfterPrefix("--", Body(line));
    assert Leads(line, white, "--" + Body(line)[2..]);
  }

  lemma LeadsRule(line: string, white: string, rest: string)
    requires Leads(line, white, "--" + rest)
    ensures IsRule(line)
  {
    NotSkipped('-');
    assert ("--" + rest)[0] == '-';
    BodyIsRest(line, white, "--" + rest);
  }

  lemma AfterPrefix(prefix: string, s: string)
    requires prefix <= s
    ensures s == prefix + s[|prefix|..]
  {
  }

  lemma NotSkipped(c: char)
    requires c == '-' || c == 'R' || c == '|'
    ensures !Spaces([c])
  {
    assert [c][0] in [c];
  }

  lemma IsRuleExactly(line: string)
    ensures IsRule(line) <==> exists white, rest :: Leads(line, white, "--" + rest)
  {
    if IsRule(line) {
      RuleLeads(line);
    }
    if white, rest :| Leads(line, white, "--" + rest) {
      LeadsRule(line, white, rest);
    }
  }

  /** The end of the heading: perhaps an s, white space, and a bar. */
  ghost predicate HeadingEnd(s: string) {
    exists white, rest :: Spaces(white) && (s == white + ("|" + rest) || s == "s" + (white + ("|" + rest)))
  }

  lemma WhiteThenBar(s: string)
    ensures "|" <= SkipWhite(s) <==> exists white, rest :: Spaces(white) && s == white + ("|" + rest)
  {
    SkipWhiteExactly(s);
    if "|" <= SkipWhite(s) {
      var white :| Spaces(white) && s == white + SkipWhite(s);
      assert SkipWhite(s) == "|" + SkipWhite(s)[1..];
    }
    if white, rest :| Spaces(white) && s == white + ("|" + rest) {
      assert ("|" + rest)[0] == '|' && ['|'][0] in ['|'];
      SkipWhiteSkips(white, "|" + rest);
    }
  }

  lemma HeadingEndExactly(s: string)
    ensures HeadingEnd(s) <==> "|" <= SkipWhite(if "s" <= s then s[1..] else s)
  {
    if "s" <= s {
      assert s == "s" + s[1..] && s[0] == 's';
      WhiteThenBar(s[1..]);
      forall white, rest | Spaces(white) ensures s != white + ("|" + rest) {
        var other := white + ("|" + rest);
        assert other[0] == if white == "" then '|' else white[0];
        assert white != "" ==> white[0] in white;
      }
      if white, rest :| Spaces(white) && s == "s" + (white + ("|" + rest)) {
        assert s[1..] == white + ("|" + rest);
      }
    } else {
      WhiteThenBar(s);
      assert forall t: string :: "s" <= "s" + t;
    }
  }

  // The fourth: an optional bar, white space, Role or Roles, white space, a bar.
  lemma HeadingLeads(line: string)
    requires IsHeading(line)
    ensures exists white, rest :: Leads(line, white, "Role" + rest) && HeadingEnd(rest)
  {
    BodyLeads(line);
    var white :| Leads(line, white, Body(line));
    AfterPrefix("Role", Body(line));
    HeadingEndExactly(Body(line)[4..]);
    assert Leads(line, white, "Role" + Body(line)[4..]);
  }

  lemma LeadsHeading(line: string, white: string, rest: string)
    requires Leads(line, white, "Role" + rest) && HeadingEnd(rest)
    ensures IsHeading(line)
  {
    NotSkipped('R');
    assert ("Role" + rest)[0] == 'R' && ("Role" + rest)[4..] == rest;
    BodyIsRest(line, white, "Role" + rest);
    HeadingEndExactly(rest);
  }

  lemma IsHeadingExactly(line: string)
    ensures IsHeading(line) <==> exists white, rest :: Leads(line, white, "Role" + rest) && HeadingEnd(rest)
  {
    if IsHeading(line) {
      HeadingLeads(line);
    }
    if white, rest :| Leads(line, white, "Role" + rest) && HeadingEnd(rest) {
      LeadsHeading(line, white, rest);
    }
  }

  // The last: a bar after at least one character.
  lemma IsRowExactly(line: string)
    ensures IsRow(line) <==> exists left, right :: left != "" && line == left + "|" + right
  {
    if IsRow(line) {
      var i :| 0 <= i < |line| - 1 && line[1..][i] == '|';
      assert line[..i + 1] != "" && line == line[..i + 1] + "|" + line[i + 2..];
    }
    if left, right :| left != "" && line == left + "|" + right {
      assert line[1..][|left| - 1] == '|';
    }
  }

  /** What one row prints. */
  function RowOutput(line: string): seq<string> {
    var role := RoleOf(Fields(line));
    if role == "" then [] else [role + "|" + NoteOf(Fields(line))]
  }

  /** What a line prints under a given start flag: the first pattern that matches decides. */
  function LineOutput(line: string, start: bool): seq<string> {
    if StartsTable(line) || IsRule(line) || line == "" || IsHeading(line) || !IsRow(line) || !start then []
    else RowOutput(line)
  }

  /** All lines, from a given value of the start flag. */
  function Printed(lines: seq<string>, start: bool): seq<string>
    decreases |lines|
  {
    if lines == [] then []
    else
      LineOutput(lines[0], start) + Printed(lines[1..], start || StartsTable(lines[0]))
  }

  /** What a line prints: nothing before the table has started, nothing for a start line, a rule, an empty
      line, a heading or a line without a bar after its first character; otherwise the role, a bar and the
      note, unless there is no role. */
  lemma LinePrintsExactly(line: string, start: bool)
    ensures LineOutput(line, start) != [] <==>
              && start && line != "" && RoleOf(Fields(line)) != ""
              && (exists left, right :: left != "" && line == left + "|" + right)
              && !(exists left, right :: line == left + "Permitted roles" + right || line == left + "Permitted Roles" + right)
              && !(exists white, rest :: Leads(line, white, "--" + rest))
              && !(exists white, rest :: Leads(line, white, "Role" + rest) && HeadingEnd(rest))
    ensures LineOutput(line, start) != [] ==> LineOutput(line, start) == [RoleOf(Fields(line)) + "|" + NoteOf(Fields(line))]
  {
    StartsTableExactly(line);
    IsRuleExactly(line);
    IsHeadingExactly(line);
    IsRowExactly(line);
  }

  /** Lines before the first start line print nothing, and it starts the table for all lines after it. */
  lemma {:induction false} PrintedAfterFirstStart(before: seq<string>, line: string, after: seq<string>)
    requires (forall x <- before :: !StartsTable(x)) && StartsTable(line)
    ensures Printed(before + [line] + after, false) == Printed(after, true)
    decreases |before|
  {
    var all := before + [line] + after;
    if before == [] {
      assert all[0] == line && all[1..] == after;
    } else {
      assert all[0] == before[0] && before[0] in before && all[1..] == before[1..] + [line] + after;
      PrintedAfterFirstStart(before[1..], line, after);
    }
  }

  lemma {:induction false} NothingWithoutStart(lines: seq<string>)
    requires forall x <- lines :: !StartsTable(x)
    ensures Printed(lines, false) == []
    decreases |lines|
  {
    if lines != [] {
      assert lines[0] in lines;
      NothingWithoutStart(lines[1..]);
    }
  }

  /** Once the table has started, each line prints by itself. */
  lemma {:induction false} PrintedInTurn(first: seq<string>, second: seq<string>)
    ensures Printed(first + second, true) == Printed(first, true) + Printed(second, true)
    decreases |first|
  {
    if first == [] {
      assert first + second == second;
    } else {
      assert (first + second)[1..] == first[1..] + second;
      PrintedInTurn(first[1..], second);
    }
  }

  /** The first `n` lines print `output` and leave the flag at `start`. */
  ghost predicate PrintedSoFar(lines: seq<string>, n: nat, output: seq<string>, start: bool) {
    n <= |lines| && Printed(lines, false) == output + Printed(lines[n..], start)
  }

  lemma PrintedOneMore(lines: seq<string>, n: nat, output: seq<string>, start: bool)
    requires n < |lines| && PrintedSoFar(lines, n, output, start)
    ensures PrintedSoFar(lines, n + 1, output + LineOutput(lines[n], start), start || StartsTable(lines[n]))
  {
    var line, rest := LineOutput(lines[n], start), Printed(lines[n + 1..], start || StartsTable(lines[n]));
    assert lines[n..][1..] == lines[n + 1..];
    assert Printed(lines[n..], start) == line + rest;
    assert output + (line + rest) == (output + line) + rest;
  }

  lemma PrintedAtEnds(lines: seq<string>, output: seq<string>, start: bool)
    ensures PrintedSoFar(lines, 0, [], false)
    ensures PrintedSoFar(lines, |lines|, output, start) ==> output == Printed(lines, false)
  {
    assert lines[0..] == lines && lines[|lines|..] == [];
    assert output + [] == output;
  }

  /** The patterns and actions for one line. */
  method ProcessLine(line: string, start: int) returns (start': int, printed: seq<string>)
    requires start == 0 || start == 1
    ensures start' == if start == 1 || StartsTable(line) then 1 else 0
    ensures printed == LineOutput(line, start == 1)
  {
    start', printed := start, [];
    if StartsTable(line) { start' := 1; return; }
    if IsRule(line) { return; }
    if line == "" { return; }
    if IsHeading(line) { return; }
    if IsRow(line) {
      if start == 0 { return; }
      var role, note := ScanFields(Fields(line));
      if role == "" && note == "" { return; }
      if role != "" {
        printed := [role + "|" + note];
      }
    }
  }

  /** The whole program. */
  method Parse(lines: seq<string>) returns (output: seq<string>)
    ensures output == Printed(lines, false)
  {
    output := [];
    var start := 0;
    PrintedAtEnds(lines, output, false);
    for n := 0 to |lines|
      invariant start == 0 || start == 1
      invariant PrintedSoFar(lines, n, output, start == 1)
    {
      PrintedOneMore(lines, n, output, start == 1);
      var printed;
      start, printed := ProcessLine(lines[n], start);
      output := output + printed;
    }
    PrintedAtEnds(lines, output, start == 1);
  }

  // ---- What is printed ----

  /** A trimmed, pipe-free role that is not empty, a bar, and a trimmed, pipe-free note. */
  ghost predicate GoodRow(row: string) {
    exists role, note :: row == role + "|" + note && GoodParts(role, note)
  }

  ghost predicate GoodParts(role: string, note: string) {
    role != "" && Trimmed(role) && PipeFree(role) && Trimmed(note) && PipeFree(note)
  }

  lemma {:induction false} NonEmptyMembers(fields: seq<string>)
    ensures forall f <- NonEmpty(fields) :: f in fields && f != ""
  {
    if fields != [] {
      NonEmptyMembers(fields[1..]);
    }
  }

  lemma RowOutputGood(line: string)
    ensures forall row <- RowOutput(line) :: GoodRow(row)
  {
    var fields := Fields(line);
    var role, note := RoleOf(fields), NoteOf(fields);
    FieldsPipeFree(line);
    NonEmptyMembers(fields);
    var full := NonEmpty(fields);
    if role != "" {
      assert full[0] in fields && full[|full| - 1] in fields;
      TrimShape(full[0]);
      TrimShape(full[|full| - 1]);
      assert GoodParts(role, note);
    }
  }

  /** Every printed row is good. */
  lemma {:induction false} PrintedGood(lines: seq<string>, start: bool)
    ensures forall row <- Printed(lines, start) :: GoodRow(row)
    decreases |lines|
  {
    if lines != [] {
      PrintedGood(lines[1..], true);
      PrintedGood(lines[1..], start);
      RowOutputGood(lines[0]);
    }
  }

  /** A row determines its role and its note. */
  lemma RowDeterminesParts(role: string, note: string, role': string, note': string)
    requires PipeFree(role) && PipeFree(note) && PipeFree(role') && PipeFree(note')
    requires role + "|" + note == role' + "|" + note'
    ensures role == role' && note == note'
  {
    FieldsOfRow(role, note);
    FieldsOfRow(role', note');
  }

  // ---- No printed row starts a table ----

  ghost predicate Within(part: string, whole: string) {
    exists left, right :: whole == left + part + right
  }

  lemma WithinWithin(part: string, middle: string, whole: string)
    requires Within(part, middle) && Within(middle, whole)
    ensures Within(part, whole)
  {
    var left, right :| whole == left + middle + right;
    var left', right' :| middle == left' + part + right';
    assert whole == (left + left') + part + (right' + right);
  }

  lemma WithinContains(part: string, whole: string, word: string)
    requires Within(part, whole) && Contains(part, word)
    ensures Contains(whole, word)
  {
    ContainsExactly(part, word);
    ContainsExactly(whole, word);
    WithinWithin(word, part, whole);
  }

  lemma {:induction false} FirstFieldStarts(line: string)
    ensures Fields(line)[0] <= line
    decreases |line|
  {
    if line != "" {
      FirstFieldStarts(line[1..]);
    }
  }

  lemma WithinTail(part: string, whole: string)
    requires whole != "" && Within(part, whole[1..])
    ensures Within(part, whole)
  {
    assert whole == [whole[0]] + whole[1..] + "";
    assert Within(whole[1..], whole);
    WithinWithin(part, whole[1..], whole);
  }

  lemma {:induction false} FieldWithinLine(line: string, f: string)
    requires f in Fields(line)
    ensures Within(f, line)
    decreases |line|
  {
    if f == Fields(line)[0] {
      FirstFieldStarts(line);
      assert line == "" + f + line[|f|..];
    } else {
      FieldWithinLine(line[1..], f);
      WithinTail(f, line);
    }
  }

  lemma TrimmedWithin(f: string)
    ensures Within(Trim(f), f)
  {
    TrimCuts(f);
  }

  lemma TrimmedFieldWithinLine(line: string, f: string)
    requires f in Fields(line)
    ensures Within(Trim(f), line)
  {
    FieldWithinLine(line, f);
    TrimmedWithin(f);
    WithinWithin(Trim(f), f, line);
  }

  /** A word without bars starts `s|note` exactly when it starts `s`. */
  lemma StartsBeforeBar(word: string, s: string, note: string)
    requires PipeFree(word)
    ensures word <= s + "|" + note <==> word <= s
  {
    var row := s + "|" + note;
    assert row[|s|] == '|';
    assert word <= row ==> forall i :: 0 <= i < |word| ==> word[i] in word && word[i] == row[i];
  }

  /** A word without bars in a row lies in its role or in its note. */
  lemma {:induction false} ContainsInRow(role: string, note: string, word: string)
    requires word != "" && PipeFree(word) && Contains(role + "|" + note, word)
    ensures Contains(role, word) || Contains(note, word)
    decreases |role|
  {
    var row := role + "|" + note;
    StartsBeforeBar(word, role, note);
    if word <= row {
      assert Contains(role, word);
    } else if role == "" {
      assert row[1..] == note;
    } else {
      assert row[1..] == role[1..] + "|" + note;
      ContainsInRow(role[1..], note, word);
    }
  }

  lemma RowNeverStarts(line: string, word: string)
    requires word != "" && PipeFree(word) && !Contains(line, word)
    ensures forall row <- RowOutput(line) :: !Contains(row, word)
  {
    var role, note := RoleOf(Fields(line)), NoteOf(Fields(line));
    var full := NonEmpty(Fields(line));
    NonEmptyMembers(Fields(line));
    if role != "" && Contains(role + "|" + note, word) {
      ContainsInRow(role, note, word);
      assert full[0] in full && full[|full| - 1] in full;
      TrimmedFieldWithinLine(line, full[0]);
      TrimmedFieldWithinLine(line, full[|full| - 1]);
      if Contains(role, word) {
        WithinContains(role, line, word);
      } else if |full| >= 2 {
        WithinContains(note, line, word);
      }
    }
  }

  /** No printed row is a start line: its role and note are parts of a line that was none. */
  lemma {:induction false} PrintedNeverStarts(lines: seq<string>, start: bool)
    ensures forall row <- Printed(lines, start) :: !StartsTable(row)
    decreases |lines|
  {
    if lines != [] {
      PrintedNeverStarts(lines[1..], start || StartsTable(lines[0]));
      if !StartsTable(lines[0]) {
        RowNeverStarts(lines[0], "Permitted roles");
        RowNeverStarts(lines[0], "Permitted Roles");
      }
    }
  }

  // ---- Which printed rows the rule and heading patterns catch ----

  /** A line that the first, second or fourth pattern takes away from the row pattern. */
  predicate Caught(row: string) {
    StartsTable(row) || IsRule(row) || IsHeading(row)
  }

  ghost predicate AllWhite(s: string) {
    forall c <- s :: White(c)
  }

  /** Role or Roles, up to white space at the end. */
  ghost predicate HeadingWord(s: string) {
    exists white :: AllWhite(white) && (s == "Role" + white || s == "Roles" + white)
  }

  /** A role that does not survive: after white space at its start it begins with two dashes, or is a
      heading word. */
  ghost predicate Lost(role: string) {
    "--" <= SkipWhite(role) || HeadingWord(SkipWhite(role))
  }

  lemma {:induction false} SkipWhiteInRow(s: string, note: string)
    requires PipeFree(s)
    ensures SkipWhite(s + "|" + note) == SkipWhite(s) + "|" + note && PipeFree(SkipWhite(s))
  {
    var row := s + "|" + note;
    if s != "" {
      assert row[0] == s[0] && s[0] in s;
      if White(s[0]) {
        assert row[1..] == s[1..] + "|" + note;
        SkipWhiteInRow(s[1..], note);
      }
    }
  }

  lemma {:induction false} SkipsAllExactly(s: string)
    ensures SkipWhite(s) == "" <==> AllWhite(s)
  {
    if s != "" && White(s[0]) {
      SkipsAllExactly(s[1..]);
      assert forall c :: c in s <==> c == s[0] || c in s[1..];
    }
  }

  lemma BodyOfRow(role: string, note: string)
    requires role != "" && PipeFree(role)
    ensures Body(role + "|" + note) == SkipWhite(role) + "|" + note && PipeFree(SkipWhite(role))
  {
    assert (role + "|" + note)[0] == role[0] && role[0] in role;
    SkipWhiteInRow(role, note);
  }

  lemma RuleExactly(role: string, note: string)
    requires role != "" && PipeFree(role)
    ensures IsRule(role + "|" + note) <==> "--" <= SkipWhite(role)
  {
    BodyOfRow(role, note);
    StartsBeforeBar("--", SkipWhite(role), note);
  }

  /** The end of the heading pattern: white space, then the bar. */
  lemma OnlyWhiteBeforeBar(s: string, note: string)
    requires PipeFree(s)
    ensures "|" <= SkipWhite(s + "|" + note) <==> AllWhite(s)
  {
    var rest := SkipWhite(s);
    SkipWhiteInRow(s, note);
    SkipsAllExactly(s);
    assert rest != "" ==> (rest + "|" + note)[0] == rest[0] && rest[0] in rest;
  }

  /** What is left after Role and perhaps an s. */
  function AfterHeading(s: string): string
    requires "Role" <= s
  {
    if "s" <= s[4..] then s[4..][1..] else s[4..]
  }

  lemma HeadingWordShape(s: string, white: string)
    requires AllWhite(white) && (s == "Role" + white || s == "Roles" + white)
    ensures "Role" <= s && AfterHeading(s) == white
  {
    if s == "Role" + white {
      assert s[4..] == white;
      assert "s" <= white ==> white[0] in white;
    } else {
      assert s == "Role" + ("s" + white);
      assert s[4..] == "s" + white;
    }
  }

  lemma HeadingWordExactly(s: string)
    ensures HeadingWord(s) <==> "Role" <= s && AllWhite(AfterHeading(s))
  {
    if white :| AllWhite(white) && (s == "Role" + white || s == "Roles" + white) {
      HeadingWordShape(s, white);
    }
    if "Role" <= s {
      assert s == "Role" + s[4..];
      assert "s" <= s[4..] ==> s == "Roles" + s[4..][1..];
    }
  }

  lemma HeadingTail(tail: string, note: string)
    requires PipeFree(tail)
    ensures var rest := tail + "|" + note;
            "|" <= SkipWhite(if "s" <= rest then rest[1..] else rest)
            <==> AllWhite(if "s" <= tail then tail[1..] else tail)
  {
    StartsBeforeBar("s", tail, note);
    if "s" <= tail {
      assert (tail + "|" + note)[1..] == tail[1..] + "|" + note;
      OnlyWhiteBeforeBar(tail[1..], note);
    } else {
      OnlyWhiteBeforeBar(tail, note);
    }
  }

  lemma HeadingExactly(role: string, note: string)
    requires role != "" && PipeFree(role)
    ensures IsHeading(role + "|" + note) <==> HeadingWord(SkipWhite(role))
  {
    var s := SkipWhite(role);
    BodyOfRow(role, note);
    StartsBeforeBar("Role", s, note);
    HeadingWordExactly(s);
    if "Role" <= s {
      assert (s + "|" + note)[4..] == s[4..] + "|" + note;
      assert forall c <- s[4..] :: c in s;
      HeadingTail(s[4..], note);
    }
  }

  // ---- Feeding the output back ----

  lemma GoodRowPrintsItself(row: string)
    requires GoodRow(row)
    ensures row != "" && IsRow(row) && RowOutput(row) == [row]
  {
    var role, note :| row == role + "|" + note && GoodParts(role, note);
    FieldsOfRow(role, note);
    assert row[|role|] == '|' && row[1..][|role| - 1] == '|';
    TrimIdle(role);
    TrimIdle(note);
    assert [role, note][1..] == [note] && [note][1..] == [];
    assert NonEmpty([note]) == if note == "" then [] else [note];
    assert NonEmpty([role, note]) == [role] + NonEmpty([note]);
  }

  function Uncaught(rows: seq<string>): seq<string> {
    if rows == [] then []
    else (if Caught(rows[0]) then [] else [rows[0]]) + Uncaught(rows[1..])
  }

  lemma {:induction false} GoodRowsReprint(rows: seq<string>)
    requires forall row <- rows :: GoodRow(row)
    ensures Printed(rows, true) == Uncaught(rows)
    decreases |rows|
  {
    if rows != [] {
      assert rows[0] in rows;
      GoodRowPrintsItself(rows[0]);
      GoodRowsReprint(rows[1..]);
    }
  }

  lemma {:induction false} UncaughtAll(rows: seq<string>)
    ensures |Uncaught(rows)| <= |rows|
    ensures Uncaught(rows) == rows <==> forall row <- rows :: !Caught(row)
    decreases |rows|
  {
    if rows != [] {
      UncaughtAll(rows[1..]);
      assert rows == [rows[0]] + rows[1..];
      if Caught(rows[0]) {
        assert |Uncaught(rows)| < |rows| && rows[0] in rows;
      } else {
        assert Uncaught(rows) == [rows[0]] + Uncaught(rows[1..]);
        assert Uncaught(rows)[1..] == Uncaught(rows[1..]);
        assert forall row :: row in rows <==> row == rows[0] || row in rows[1..];
      }
    }
  }

  /** Feeding back a start line and the printed rows prints those rows that no earlier pattern catches. */
  lemma ReparsePrintsUncaught(lines: seq<string>)
    ensures var rows := Printed(lines, false);
            Printed(["Permitted roles"] + rows, false) == Uncaught(rows)
  {
    var rows := Printed(lines, false);
    var again := ["Permitted roles"] + rows;
    PrintedGood(lines, false);
    GoodRowsReprint(rows);
    assert again[0] == "Permitted roles" && again[1..] == rows;
    assert Contains("Permitted roles", "Permitted roles");
  }

  /** The role of a row. */
  function RoleOfRow(row: string): string {
    Fields(row)[0]
  }

  lemma CaughtExactly(row: string)
    requires GoodRow(row) && !StartsTable(row)
    ensures Caught(row) <==> Lost(RoleOfRow(row))
  {
    var role, note :| row == role + "|" + note && GoodParts(role, note);
    FieldsOfRow(role, note);
    RuleExactly(role, note);
    HeadingExactly(role, note);
  }

  /** Parser and printer agree exactly so far: feeding back a start line and the printed rows prints the
      same rows if and only if no printed role, after white space at its start, begins with two dashes
      or is Role or Roles up to white space at its end. */
  lemma ReparseExactly(lines: seq<string>)
    ensures var rows := Printed(lines, false);
            Printed(["Permitted roles"] + rows, false) == rows <==> forall row <- rows :: !Lost(RoleOfRow(row))
  {
    var rows := Printed(lines, false);
    ReparsePrintsUncaught(lines);
    UncaughtAll(rows);
    PrintedGood(lines, false);
    PrintedNeverStarts(lines, false);
    forall row | row in rows ensures Caught(row) <==> Lost(RoleOfRow(row)) {
      CaughtExactly(row);
    }
  }

  lemma HiddenFromPatterns(row: string)
    ensures var line := "|" + ("|" + row); !IsRule(line) && !IsHeading(line) && IsRow(line)
  {
    var line := "|" + ("|" + row);
    assert line[1..] == "|" + row;
    assert line[1..][0] == '|';
    assert Body(line) == "|" + row;
    assert ("|" + row)[0] == '|';
  }

  lemma HiddenFields(row: string)
    ensures NonEmpty(Fields("|" + row)) == NonEmpty(Fields(row))
  {
    assert ("|" + row)[1..] == row;
    assert ([""] + Fields(row))[1..] == Fields(row);
  }

  /** Two bars in front hide a row from the rule and heading patterns. */
  lemma HiddenRowPrints(row: string)
    requires GoodRow(row) && !StartsTable("|" + ("|" + row))
    ensures LineOutput("|" + ("|" + row), true) == [row]
  {
    GoodRowPrintsItself(row);
    HiddenFromPatterns(row);
    HiddenFields(row);
    HiddenFields("|" + row);
  }

  lemma PrintedAfterStart(line: string)
    ensures Printed(["Permitted roles", line], false) == LineOutput(line, true)
  {
    var lines := ["Permitted roles", line];
    assert Contains(lines[0], "Permitted roles");
    assert lines[1..] == [line] && [line][1..] == [];
    assert Printed([line], true) == LineOutput(line, true) + Printed([], true);
  }

  /** So every such role does occur: its row is printed from a line that hides it, and printed no more
      when it is fed back. */
  lemma LostRolesOccur(row: string)
    requires GoodRow(row) && Lost(RoleOfRow(row)) && !StartsTable("|" + ("|" + row))
    ensures Printed(["Permitted roles", "|" + ("|" + row)], false) == [row]
    ensures Printed(["Permitted roles", row], false) == []
  {
    HiddenRowPrints(row);
    PrintedAfterStart("|" + ("|" + row));
    PrintedAfterStart(row);
    if !StartsTable(row) {
      CaughtExactly(row);
    }
  }

  lemma {:induction false} TooShort(line: string, word: string)
    requires |line| < |word|
    ensures !Contains(line, word)
    decreases |line|
  {
    if line != "" {
      TooShort(line[1..], word);
    }
  }

  /** The smallest case. */
  lemma DashesAreLost()
    ensures Printed(["Permitted roles", "||--x|y"], false) == ["--x|y"]
    ensures Printed(["Permitted roles", "--x|y"], false) == []
  {
    var row := "--x" + "|" + "y";
    assert row == "--x|y" && "|" + ("|" + row) == "||--x|y";
    TooShort("||--x|y", "Permitted roles");
    TooShort("||--x|y", "Permitted Roles");
    FieldsOfRow("--x", "y");
    assert GoodParts("--x", "y");
    LostRolesOccur(row);
  }
}
