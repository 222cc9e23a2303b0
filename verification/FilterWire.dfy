/**
 The filter expressions of a query: the frontend groups filters by field and prints "op value" tokens joined by
 commas; the server finds the tokens again with a regular expression.
 */
module FilterWire {
  import opened Sequences
  import opened UrlForm

  datatype TextFilter = TextFilter(field: string, op: string, value: string)

  /** The operators in the order the regular expression tries them. */
  const OPS: seq<string> := [">=", "<=", "!=", "~=", "=", ">", "<"]

  // ── Parser ─────────────────────────────────────────────────────────────────

  /** The operator followed by at least one character that is no comma. */
  predicate Fits(s: string, op: string) {
    op <= s && |s| > |op| && s[|op|] != ','
  }

  /** The alternative the regular expression takes at the start of s, or "" if none fits. */
  function OpAt(s: string): (op: string)
    ensures op != "" ==> op in OPS && Fits(s, op)
  {
    if Fits(s, ">=") then ">="
    else if Fits(s, "<=") then "<="
    else if Fits(s, "!=") then "!="
    else if Fits(s, "~=") then "~="
    else if Fits(s, "=") then "="
    else if Fits(s, ">") then ">"
    else if Fits(s, "<") then "<"
    else ""
  }

  /** The text up to the first comma. */
  function UpToComma(s: string): (run: string)
    ensures run <= s && ',' !in run && (|run| < |s| ==> s[|run|] == ',')
  {
    if s == "" || s[0] == ',' then "" else [s[0]] + UpToComma(s[1..])
  }

  function Trimmed(s: string): (t: string)
    ensures t <= s && (t != "" ==> t[|t| - 1] != ' ')
    ensures forall k :: |t| <= k < |s| ==> s[k] == ' '
  {
    if s != "" && s[|s| - 1] == ' ' then Trimmed(s[..|s| - 1]) else s
  }

  /** Tokens found from left to right; characters that start no token are passed over. */
  function FiltersOf(field: string, s: string): seq<TextFilter>
    decreases |s|
  {
    if s == "" then []
    else
      var op := OpAt(s);
      if op == "" then FiltersOf(field, s[1..])
      else
        var value := UpToComma(s[|op|..]);
        [TextFilter(field, op, Trimmed(value))] + FiltersOf(field, s[|op| + |value|..])
  }

  lemma PassStep(field: string, s: string)
    requires s != "" && OpAt(s) == ""
    ensures FiltersOf(field, s) == FiltersOf(field, s[1..])
  {
    hide OpAt, UpToComma, Trimmed;
  }

  lemma TokenStep(field: string, op: string, value: string, tail: string)
    requires op != "" && OpAt(op + value + tail) == op && ',' !in value && (tail == "" || tail[0] == ',')
    ensures FiltersOf(field, op + value + tail) == [TextFilter(field, op, Trimmed(value))] + FiltersOf(field, tail)
  {
    hide OpAt, UpToComma, Trimmed;
    var s := op + value + tail;
    assert s[|op|..] == value + tail && (value + tail)[..|value|] == value;
    RunEnds(value + tail, |value|);
    assert s[|op| + |value|..] == tail;
  }

  method ParseQueryFilters(field: string, expr: string) returns (filters: seq<TextFilter>)
    ensures filters == FiltersOf(field, expr)
  {
    filters := [];
    var at := 0;
    hide FiltersOf, OpAt, Fits, UpToComma, Trimmed;
    assert expr[0..] == expr;
    while at < |expr|
      invariant 0 <= at <= |expr|
      invariant FiltersOf(field, expr) == filters + FiltersOf(field, expr[at..])
    {
      var op := OpAt(expr[at..]);
      if op == "" {
        assert expr[at..][1..] == expr[at + 1..];
        PassStep(field, expr[at..]);
        at := at + 1;
        continue;
      }
      OpIsPrefix(expr[at..]);
      var start := at + |op|;
      var end := start;
      while end < |expr| && expr[end] != ','
        invariant start <= end <= |expr| && ',' !in expr[start..end]
      {
        assert expr[start..end + 1] == expr[start..end] + [expr[end]];
        end := end + 1;
      }
      var val := TrimSpaces(expr[start..end]);
      assert expr[at..] == op + expr[start..end] + expr[end..];
      TokenStep(field, op, expr[start..end], expr[end..]);
      filters := filters + [TextFilter(field, op, val)];
      at := end;
    }
    assert expr[|expr|..] == "" && FiltersOf(field, "") == [] by { NoFilters(field); }
  }

  lemma NoFilters(field: string)
    ensures FiltersOf(field, "") == []
  {
  }

  lemma OpIsPrefix(s: string)
    requires OpAt(s) != ""
    ensures OpAt(s) in OPS && |OpAt(s)| <= |s| && s[..|OpAt(s)|] == OpAt(s)
  {
  }

  method TrimSpaces(s: string) returns (val: string)
    ensures val == Trimmed(s)
  {
    val := s;
    while val != "" && val[|val| - 1] == ' '
      invariant Trimmed(val) == Trimmed(s)
      decreases |val|
    {
      val := val[..|val| - 1];
    }
  }

  lemma {:induction false} RunEnds(s: string, k: nat)
    requires k <= |s| && ',' !in s[..k] && (k < |s| ==> s[k] == ',')
    ensures UpToComma(s) == s[..k]
  {
    if k > 0 {
      assert s[0] == s[..k][0] && s[..k][1..] == s[1..][..k - 1];
      RunEnds(s[1..], k - 1);
    }
  }

  // ── Printer ────────────────────────────────────────────────────────────────

  function Token(f: TextFilter): string { f.op + f.value }

  function Tokens(fs: seq<TextFilter>): (tokens: seq<string>)
    ensures |tokens| == |fs|
  {
    if fs == [] then [] else [Token(fs[0])] + Tokens(fs[1..])
  }

  function Expression(fs: seq<TextFilter>): string
    requires fs != []
  {
    Join(Tokens(fs), ',')
  }

  /** Filters of one field, in order. */
  function OfField(fs: seq<TextFilter>, field: string): (r: seq<TextFilter>)
    ensures |r| <= |fs| && forall k :: 0 <= k < |r| ==> r[k].field == field
  {
    if fs == [] then []
    else OfField(fs[..|fs| - 1], field) + (if fs[|fs| - 1].field == field then [fs[|fs| - 1]] else [])
  }

  // ── When printing and parsing one field's filters undo each other ──────────

  predicate ValidOps(fs: seq<TextFilter>) { forall k :: 0 <= k < |fs| ==> fs[k].op in OPS }

  /** A value the expression syntax can carry. */
  predicate Carried(f: TextFilter) {
    && f.value != "" && ',' !in f.value && f.value[|f.value| - 1] != ' '
    && !((f.op == ">" || f.op == "<") && |f.value| > 1 && f.value[0] == '=')
  }

  predicate AllCarried(fs: seq<TextFilter>) { forall k :: 0 <= k < |fs| ==> Carried(fs[k]) }

  predicate OneField(fs: seq<TextFilter>, field: string) { forall k :: 0 <= k < |fs| ==> fs[k].field == field }

  /** Tokens never reach across a comma. */
  lemma {:induction false} ParseAcrossComma(field: string, p: string, rest: string)
    requires ',' !in p
    ensures FiltersOf(field, p + [','] + rest) == FiltersOf(field, p) + FiltersOf(field, rest)
    decreases |p|
  {
    hide FiltersOf, OpAt, Fits, UpToComma, Trimmed;
    var s := p + [','] + rest;
    SameOp(p, rest);
    NoFilters(field);
    if p == "" {
      assert s == [','] + rest;
      StartingComma(field, rest);
    } else if OpAt(p) == "" {
      assert s[1..] == p[1..] + [','] + rest;
      PassStep(field, p);
      PassStep(field, s);
      ParseAcrossComma(field, p[1..], rest);
    } else {
      OpIsPrefix(p);
      var op, value := OpAt(p), p[|OpAt(p)|..];
      assert p == op + value + "" && s == op + value + ([','] + rest);
      TokenStep(field, op, value, "");
      TokenStep(field, op, value, [','] + rest);
      StartingComma(field, rest);
    }
  }

  lemma StartingComma(field: string, rest: string)
    ensures FiltersOf(field, [','] + rest) == FiltersOf(field, rest)
  {
    hide FiltersOf, OpAt, Fits;
    assert ([','] + rest)[1..] == rest;
    OpByChars([','] + rest);
    PassStep(field, [','] + rest);
  }

  lemma SameOp(p: string, rest: string)
    requires ',' !in p
    ensures OpAt(p + [','] + rest) == OpAt(p)
  {
    forall op | op in OPS ensures Fits(p + [','] + rest, op) <==> Fits(p, op) {
      FitsAcross(op, p, rest);
    }
  }

  lemma FitsAcross(op: string, p: string, rest: string)
    requires ',' !in p && op in OPS
    ensures Fits(p + [','] + rest, op) <==> Fits(p, op)
  {
    var s := p + [','] + rest;
    if |op| <= |p| {
      assert s[..|op|] == p[..|op|];
    }
    assert s[|p|] == ',';
  }

  /** Text without a comma holds at most one token, which runs to its end. */
  lemma {:induction false} AtMostOneToken(field: string, p: string)
    requires ',' !in p
    ensures |FiltersOf(field, p)| <= 1
  {
    hide FiltersOf, OpAt, Fits, UpToComma, Trimmed;
    NoFilters(field);
    if p != "" {
      if OpAt(p) == "" {
        PassStep(field, p);
        AtMostOneToken(field, p[1..]);
      } else {
        WholeToken(field, p);
      }
    }
  }

  lemma WholeToken(field: string, p: string)
    requires ',' !in p && OpAt(p) != ""
    ensures |OpAt(p)| <= |p| && p[..|OpAt(p)|] == OpAt(p)
    ensures FiltersOf(field, p) == [TextFilter(field, OpAt(p), Trimmed(p[|OpAt(p)|..]))]
  {
    hide FiltersOf, OpAt, Fits, UpToComma, Trimmed;
    OpIsPrefix(p);
    var op, value := OpAt(p), p[|OpAt(p)|..];
    assert p == op + value + "";
    TokenStep(field, op, value, "");
    NoFilters(field);
  }

  /** The token at the start of s, and what is left after it. */
  lemma FirstToken(field: string, s: string) returns (rest: string)
    requires OpAt(s) != ""
    ensures |rest| < |s|
    ensures var value := Trimmed(UpToComma(s[|OpAt(s)|..]));
      && FiltersOf(field, s) == [TextFilter(field, OpAt(s), value)] + FiltersOf(field, rest)
      && ',' !in value && (value != "" ==> value[|value| - 1] != ' ')
  {
    hide OpAt, UpToComma, Trimmed, Fits;
    OpIsPrefix(s);
    rest := s[|OpAt(s)| + |UpToComma(s[|OpAt(s)|..])|..];
  }

  /** What the parser returns never has a comma or a trailing space. */
  lemma {:induction false} ParsedValuesAreTrimmed(field: string, s: string)
    ensures forall k :: 0 <= k < |FiltersOf(field, s)| ==>
      var v := FiltersOf(field, s)[k].value; ',' !in v && (v != "" ==> v[|v| - 1] != ' ')
    decreases |s|
  {
    hide OpAt, Fits, UpToComma, Trimmed, FiltersOf;
    NoFilters(field);
    if s != "" {
      var op := OpAt(s);
      if op == "" {
        PassStep(field, s);
        ParsedValuesAreTrimmed(field, s[1..]);
      } else {
        var rest := FirstToken(field, s);
        ParsedValuesAreTrimmed(field, rest);
      }
    }
  }

  /** One token is read back exactly when its value can be carried. */
  lemma TokenRoundTrip(f: TextFilter)
    requires f.op in OPS && ',' !in f.value
    ensures FiltersOf(f.field, Token(f)) == [f] <==> Carried(f)
  {
    hide FiltersOf, OpAt, Fits, UpToComma;
    var s := Token(f);
    var op := OpAt(s);
    ReadOp(f);
    if op == "" {
      assert s == f.op;
      NothingAfterBareOp(f.field, f.op);
    } else {
      assert ',' !in s by { NoComma(f); }
      WholeToken(f.field, s);
      assert op == f.op ==> s[|op|..] == f.value;
    }
  }

  lemma NoComma(f: TextFilter)
    requires f.op in OPS && ',' !in f.value
    ensures ',' !in Token(f)
  {
    assert ',' !in f.op;
  }

  /** The alternative taken, read off the first three characters. */
  lemma OpByChars(s: string)
    ensures OpAt(s) ==
      if |s| > 2 && s[1] == '=' && s[2] != ',' && s[0] in ['>', '<', '!', '~'] then [s[0], '=']
      else if |s| > 1 && s[1] != ',' && s[0] in ['=', '>', '<'] then [s[0]]
      else ""
  {
    assert |s| > 2 ==> s[..2] == [s[0], s[1]];
    assert |s| > 1 ==> s[..1] == [s[0]];
    forall op | op in OPS ensures Fits(s, op) <==> |s| > |op| && s[..|op|] == op && s[|op|] != ',' {
    }
  }

  /** The operator read from a printed token is its own unless the value supplies an equals sign. */
  lemma ReadOp(f: TextFilter)
    requires f.op in OPS && ',' !in f.value
    ensures f.value != "" ==>
          (OpAt(Token(f)) == f.op <==> !((f.op == ">" || f.op == "<") && |f.value| > 1 && f.value[0] == '='))
    ensures f.value != "" ==> OpAt(Token(f)) != ""
    ensures f.value == "" ==> OpAt(Token(f)) != f.op && (OpAt(Token(f)) == "" ==> OpAt(f.op) == "")
  {
    hide OpAt, Fits;
    var s := Token(f);
    OpByChars(s);
    assert f.value == "" ==> s == f.op;
    if |f.op| == 1 {
      assert f.op == "=" || f.op == ">" || f.op == "<";
      assert |s| == 1 + |f.value| && s[0] == f.op[0];
      assert |s| > 1 ==> s[1] == f.value[0];
      assert |s| > 2 ==> s[2] == f.value[1];
    } else {
      assert |s| == 2 + |f.value| && s[0] == f.op[0] && s[1] == f.op[1] == '=';
      assert |s| > 2 ==> s[2] == f.value[0];
    }
  }

  /** An operator with no value that starts no token leaves nothing to read. */
  lemma NothingAfterBareOp(field: string, op: string)
    requires op in OPS && OpAt(op) == ""
    ensures FiltersOf(field, op) == []
  {
    hide FiltersOf, OpAt, Fits;
    NoFilters(field);
    PassStep(field, op);
    if |op| == 2 {
      assert op[1..] == "=";
      OpByChars("=");
      PassStep(field, "=");
      assert "="[1..] == "";
    } else {
      assert op[1..] == "";
    }
  }

  lemma {:induction false} ExpressionYieldsAtMostAll(field: string, fs: seq<TextFilter>)
    requires fs != [] && ValidOps(fs) && (forall k :: 0 <= k < |fs| ==> ',' !in fs[k].value)
    ensures |FiltersOf(field, Expression(fs))| <= |fs|
    ensures |fs| > 1 ==>
      FiltersOf(field, Expression(fs)) == FiltersOf(field, Token(fs[0])) + FiltersOf(field, Expression(fs[1..]))
    ensures |FiltersOf(field, Token(fs[0]))| <= 1
  {
    hide FiltersOf, Token;
    var p := Token(fs[0]);
    NoComma(fs[0]);
    AtMostOneToken(field, p);
    if |fs| > 1 {
      ExpressionYieldsAtMostAll(field, fs[1..]);
      assert Tokens(fs)[1..] == Tokens(fs[1..]);
      ParseAcrossComma(field, p, Expression(fs[1..]));
    }
  }

  /** Parsing what was printed gives back the filters, in order, exactly when every value is non-empty, free of
      commas, does not end in a space, and does not turn > or < into >= or <=. */
  lemma PrintParseExactlyWhenCarried(field: string, fs: seq<TextFilter>)
    requires fs != [] && ValidOps(fs) && OneField(fs, field)
    ensures FiltersOf(field, Expression(fs)) == fs <==> AllCarried(fs)
  {
    if exists k :: 0 <= k < |fs| && ',' in fs[k].value {
      ParsedValuesAreTrimmed(field, Expression(fs));
    } else {
      PrintParseWithoutCommas(field, fs);
    }
  }

  lemma {:induction false} PrintParseWithoutCommas(field: string, fs: seq<TextFilter>)
    requires fs != [] && ValidOps(fs) && OneField(fs, field)
    requires forall k :: 0 <= k < |fs| ==> ',' !in fs[k].value
    ensures FiltersOf(field, Expression(fs)) == fs <==> AllCarried(fs)
  {
    hide FiltersOf, Carried, Token;
    TokenRoundTrip(fs[0]);
    if |fs| == 1 {
      assert fs == [fs[0]] && Tokens(fs) == [Token(fs[0])];
    } else {
      var first, rest := FiltersOf(field, Token(fs[0])), FiltersOf(field, Expression(fs[1..]));
      PrintParseWithoutCommas(field, fs[1..]);
      ExpressionYieldsAtMostAll(field, fs);
      ExpressionYieldsAtMostAll(field, fs[1..]);
      assert fs == [fs[0]] + fs[1..];
      HeadAndTail(first, rest, fs);
      assert AllCarried(fs) <==> Carried(fs[0]) && AllCarried(fs[1..]) by {
        if Carried(fs[0]) && AllCarried(fs[1..]) {
          forall k | 0 <= k < |fs| ensures Carried(fs[k]) {
            assert k > 0 ==> fs[k] == fs[1..][k - 1];
          }
        }
        if AllCarried(fs) {
          forall k | 0 <= k < |fs| - 1 ensures Carried(fs[1..][k]) {
            assert fs[1..][k] == fs[k + 1];
          }
        }
      }
    }
  }

  lemma HeadAndTail<T>(first: seq<T>, rest: seq<T>, all: seq<T>)
    requires all != [] && |first| <= 1 && |rest| <= |all| - 1
    ensures first + rest == all <==> first == [all[0]] && rest == all[1..]
  {
    if first + rest == all {
      assert |first| == 1 && (first + rest)[0] == first[0] && (first + rest)[1..] == rest;
    }
    assert all == [all[0]] + all[1..];
  }
}
