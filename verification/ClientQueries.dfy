/** From the frontend's query parameters to the filters the server runs: serialise, form-encode, decode, parse. */
module ClientQueries {
  import opened Results
  import opened LogTable
  import opened Sequences
  import opened UrlForm
  import opened FilterWire
  import opened Values
  import Queries

  datatype QueryLogsParams = QueryLogsParams(fields: Option<string>, limit: int, offset: int, filters: seq<TextFilter>)

  /** The keys the server does not take for fields. */
  const RESERVED := {"fields", "limit", "offset"}

  function FieldsOf(fs: seq<TextFilter>): set<string> {
    if fs == [] then {} else FieldsOf(fs[..|fs| - 1]) + {fs[|fs| - 1].field}
  }

  /** What a reserved key holds when no filter uses it as a field. */
  function Parameter(params: QueryLogsParams, key: string): string {
    if key == "limit" then DumpInt(params.limit)
    else if key == "offset" then DumpInt(params.offset)
    else if params.fields.Some? && params.fields.value != "" then params.fields.value else "*"
  }

  lemma {:induction false} FieldHasFilters(fs: seq<TextFilter>, field: string)
    ensures field in FieldsOf(fs) <==> OfField(fs, field) != []
  {
    if fs != [] {
      FieldHasFilters(fs[..|fs| - 1], field);
    }
  }

  function ValueFor(params: QueryLogsParams, key: string): string {
    var own := OfField(params.filters, key);
    if own == [] then Parameter(params, key) else Expression(own)
  }

  function Serialized(params: QueryLogsParams): map<string, string> {
    map key | key in RESERVED + FieldsOf(params.filters) :: ValueFor(params, key)
  }

  /** Takes the groups in any order, since JavaScript may enumerate them in another order than insertion. */
  method SerializeQueryParams(params: QueryLogsParams) returns (query: map<string, string>)
    ensures query == Serialized(params)
  {
    hide OfField, Expression, FieldsOf, Parameter, RESERVED;
    var grouped := GroupByField(params.filters);
    var paging := PagingParams(params);
    query := AddExpressions(paging, grouped);
    forall key | key in query ensures query[key] == ValueFor(params, key) {
      FieldHasFilters(params.filters, key);
    }
    assert query.Keys == RESERVED + FieldsOf(params.filters);
  }

  method AddExpressions(paging: map<string, string>,
                        grouped: map<string, seq<TextFilter>>) returns (query: map<string, string>)
    requires forall field :: field in grouped ==> grouped[field] != []
    ensures forall key :: key in query <==> key in paging || key in grouped
    ensures forall key :: key in query ==>
          query[key] == if key in grouped then Expression(grouped[key]) else paging[key]
  {
    hide Expression;
    query := paging;
    var pending := grouped.Keys;
    while pending != {}
      invariant pending <= grouped.Keys
      invariant forall key :: key in query <==> key in paging || (key in grouped && key !in pending)
      invariant forall key :: key in query ==>
        query[key] == if key in grouped && key !in pending then Expression(grouped[key]) else paging[key]
      decreases |pending|
    {
      var field :| field in pending;
      query := query[field := Expression(grouped[field])];
      pending := pending - {field};
    }
  }

  method PagingParams(params: QueryLogsParams) returns (query: map<string, string>)
    ensures query.Keys == RESERVED && forall key :: key in query ==> query[key] == Parameter(params, key)
  {
    hide DumpInt;
    var fields := if params.fields.Some? && params.fields.value != "" then params.fields.value else "*";
    query := map["fields" := fields, "limit" := DumpInt(params.limit), "offset" := DumpInt(params.offset)];
  }

  method GroupByField(filters: seq<TextFilter>) returns (grouped: map<string, seq<TextFilter>>)
    ensures grouped.Keys == FieldsOf(filters)
    ensures forall field :: field in grouped ==> grouped[field] == OfField(filters, field) && grouped[field] != []
  {
    grouped := map[];
    for k := 0 to |filters|
      invariant grouped.Keys == FieldsOf(filters[..k])
      invariant forall field :: field in grouped ==> grouped[field] == OfField(filters[..k], field)
    {
      var f := filters[k];
      assert filters[..k + 1][..k] == filters[..k];
      FieldHasFilters(filters[..k], f.field);
      if f.field !in grouped {
        grouped := grouped[f.field := []];
      }
      grouped := grouped[f.field := grouped[f.field] + [f]];
    }
    assert filters[..|filters|] == filters;
    forall field | field in grouped ensures grouped[field] != [] {
      FieldHasFilters(filters, field);
    }
  }

  // ── The round trip ─────────────────────────────────────────────────────────

  /** The entries of a map, each once, in some order. */
  ghost predicate Entries(order: seq<Pair>, m: map<string, string>) {
    && (forall k :: 0 <= k < |order| ==> order[k].0 in m && m[order[k].0] == order[k].1)
    && (forall j, k :: 0 <= j < k < |order| ==> order[j].0 != order[k].0)
    && (forall key :: key in m ==> exists k :: 0 <= k < |order| && order[k].0 == key)
  }

  ghost predicate ByteParams(params: QueryLogsParams) {
    && (params.fields.Some? ==> Bytes(params.fields.value))
    && ByteFilters(params.filters)
  }

  predicate ByteFilters(fs: seq<TextFilter>) {
    forall k :: 0 <= k < |fs| ==> Bytes(fs[k].field) && Bytes(fs[k].value)
  }

  predicate OnlyAt(order: seq<Pair>, k: int, key: string) {
    0 <= k < |order| && order[k].0 == key && forall j :: 0 <= j < |order| && j != k ==> order[j].0 != key
  }

  /** Whatever order the entries are sent in, the server receives each key once. For a field, it reads back that
      field's filters in order exactly when every value can be carried; a reserved key that names no field holds
      the parameter itself, the numbers such that they read back. */
  lemma QueryRoundTrip(params: QueryLogsParams, order: seq<Pair>)
    requires ValidOps(params.filters) && ByteParams(params) && Entries(order, Serialized(params))
    ensures BytePairs(order) && ParsedPairs(FormEncode(order)) == order
    ensures forall key :: key in RESERVED + FieldsOf(params.filters) ==>
      exists k :: OnlyAt(order, k, key)
    ensures forall k :: 0 <= k < |order| ==>
      var key, value, own := order[k].0, order[k].1, OfField(params.filters, order[k].0);
      if key in FieldsOf(params.filters) then FiltersOf(key, value) == own <==> AllCarried(own)
      else key in RESERVED && value == Parameter(params, key)
    ensures forall k :: 0 <= k < |order| && order[k].0 !in FieldsOf(params.filters) ==>
      match order[k].0
      case "limit" => ReadInt(order[k].1) == params.limit
      case "offset" => ReadInt(order[k].1) == params.offset
      case _ => order[k].1 == if params.fields == None || params.fields == Some("") then "*" else params.fields.value
  {
    hide Expression, FiltersOf, AllCarried, FormEncode, ParsedPairs, DumpInt, ReadInt, ValueFor, Parameter, OfField;
    forall k | 0 <= k < |order| ensures Bytes(order[k].0) && Bytes(order[k].1) {
      ValueIsBytes(params, order[k].0);
    }
    FormRoundTrip(order);
    forall key | key in RESERVED + FieldsOf(params.filters) ensures exists k :: OnlyAt(order, k, key) {
      assert key in Serialized(params);
      var k :| 0 <= k < |order| && order[k].0 == key;
      assert OnlyAt(order, k, key);
    }
    forall k | 0 <= k < |order|
      ensures var key, value, own := order[k].0, order[k].1, OfField(params.filters, order[k].0);
        if key in FieldsOf(params.filters) then FiltersOf(key, value) == own <==> AllCarried(own)
        else key in RESERVED && value == Parameter(params, key)
    {
      FieldRoundTrip(params, order[k].0);
    }
    forall k | 0 <= k < |order| && order[k].0 !in FieldsOf(params.filters)
      ensures match order[k].0
        case "limit" => ReadInt(order[k].1) == params.limit
        case "offset" => ReadInt(order[k].1) == params.offset
        case _ => order[k].1 == if params.fields == None || params.fields == Some("") then "*" else params.fields.value
    {
      ParameterReadsBack(params, order[k].0);
    }
  }

  lemma ParameterReadsBack(params: QueryLogsParams, key: string)
    ensures var value := Parameter(params, key);
      match key
      case "limit" => ReadInt(value) == params.limit
      case "offset" => ReadInt(value) == params.offset
      case _ => value == if params.fields == None || params.fields == Some("") then "*" else params.fields.value
  {
    DumpIntReadsBack(params.limit);
    DumpIntReadsBack(params.offset);
    hide DumpInt, ReadInt;
  }

  lemma FieldRoundTrip(params: QueryLogsParams, key: string)
    requires ValidOps(params.filters)
    ensures var own := OfField(params.filters, key);
      if key in FieldsOf(params.filters) then FiltersOf(key, ValueFor(params, key)) == own <==> AllCarried(own)
      else ValueFor(params, key) == Parameter(params, key)
  {
    hide Expression, FiltersOf, AllCarried;
    FieldHasFilters(params.filters, key);
    if key in FieldsOf(params.filters) {
      OwnAreFilters(params.filters, key);
      PrintParseExactlyWhenCarried(key, OfField(params.filters, key));
    }
  }

  lemma {:induction false} OwnAreFilters(fs: seq<TextFilter>, field: string)
    ensures ValidOps(fs) ==> ValidOps(OfField(fs, field))
    ensures ByteFilters(fs) ==> ByteFilters(OfField(fs, field))
  {
    if fs != [] {
      OwnAreFilters(fs[..|fs| - 1], field);
    }
  }

  lemma ValueIsBytes(params: QueryLogsParams, key: string)
    requires ValidOps(params.filters) && ByteParams(params) && key in RESERVED + FieldsOf(params.filters)
    ensures Bytes(key) && Bytes(ValueFor(params, key))
  {
    FieldHasFilters(params.filters, key);
    FieldIsBytes(params.filters, key);
    OwnAreFilters(params.filters, key);
    NumberIsDigits(params.limit);
    NumberIsDigits(params.offset);
    hide OfField, FieldsOf, Expression, DumpInt, ByteFilters;
    var own := OfField(params.filters, key);
    if own != [] {
      ExpressionIsBytes(own);
    }
  }

  lemma {:induction false} FieldIsBytes(fs: seq<TextFilter>, key: string)
    requires ByteFilters(fs)
    ensures key in FieldsOf(fs) ==> Bytes(key)
  {
    if fs != [] {
      FieldIsBytes(fs[..|fs| - 1], key);
    }
  }

  lemma {:induction false} ExpressionIsBytes(fs: seq<TextFilter>)
    requires fs != [] && ValidOps(fs) && ByteFilters(fs)
    ensures Bytes(Expression(fs))
  {
    var token := Token(fs[0]);
    assert Bytes(fs[0].op) && Bytes(token);
    if |fs| > 1 {
      ExpressionIsBytes(fs[1..]);
      assert Tokens(fs)[1..] == Tokens(fs[1..]);
    }
  }

  lemma NumberIsDigits(n: int)
    ensures Bytes(DumpInt(n)) && DumpInt(n) != "" && DumpInt(n)[0] !in ['>', '<', '=', '!', '~']
  {
    DigitsAreDigits(if n < 0 then -n else n);
  }

  /** The operators the expressions can carry are those the query accepts. */
  lemma OperatorsAreShared(op: string)
    ensures op in OPS <==> op in Queries.ALLOWED_OPS
  {
    assert Queries.COMPARISONS == ["=", "!=", ">", ">=", "<", "<="];
    assert op in Queries.ALLOWED_OPS <==> op in Queries.COMPARISONS || op == "~=";
  }

  /** The number a paging parameter was asked to be. */
  function AskedNumber(params: QueryLogsParams, key: string): int
    requires key == "limit" || key == "offset"
  {
    if key == "limit" then params.limit else params.offset
  }

  /** A filter on a field named like a paging parameter replaces it: limit and offset arrive as asked for, and read back
      as the numbers they are, exactly when no filter is on a field of that name. */
  lemma PagingArrivesExactlyWhenNoFilterNamesIt(params: QueryLogsParams, key: string)
    requires ValidOps(params.filters) && (key == "limit" || key == "offset")
    ensures key in Serialized(params)
    ensures Serialized(params)[key] == DumpInt(AskedNumber(params, key)) <==> key !in FieldsOf(params.filters)
    ensures key !in FieldsOf(params.filters) ==> ReadInt(Serialized(params)[key]) == AskedNumber(params, key)
  {
    FieldHasFilters(params.filters, key);
    OwnAreFilters(params.filters, key);
    DumpIntReadsBack(AskedNumber(params, key));
    var own := OfField(params.filters, key);
    if own != [] {
      FirstCharacter(own);
      NumberIsDigits(AskedNumber(params, key));
    }
  }

  /** The fields arrive as asked for, a star standing for none named, exactly when no filter is on a field called fields
      or its expression happens to be that very text. */
  lemma FieldsArriveExactlyWhen(params: QueryLogsParams)
    ensures var asked := if params.fields == None || params.fields == Some("") then "*" else params.fields.value;
            var own := OfField(params.filters, "fields");
            && "fields" in Serialized(params)
            && (Serialized(params)["fields"] == asked <==>
                  "fields" !in FieldsOf(params.filters) || (own != [] && Expression(own) == asked))
  {
    FieldHasFilters(params.filters, "fields");
  }

  /** A field's filters are those on it, in the order they were given. */
  lemma {:induction false} OfFieldInOrder(a: seq<TextFilter>, b: seq<TextFilter>, f: TextFilter, field: string)
    ensures OfField([f], field) == if f.field == field then [f] else []
    ensures OfField(a + b, field) == OfField(a, field) + OfField(b, field)
  {
    assert [f][..0] == [] && OfField([], field) == [];
    if b == [] {
      assert a + b == a;
    } else {
      assert (a + b)[..|a + b| - 1] == a + b[..|b| - 1];
      OfFieldInOrder(a, b[..|b| - 1], f, field);
    }
  }

  lemma FirstCharacter(fs: seq<TextFilter>)
    requires fs != [] && ValidOps(fs)
    ensures |Expression(fs)| > 0 && Expression(fs)[0] == Token(fs[0])[0] && Token(fs[0])[0] in ['>', '<', '=', '!', '~']
  {
    assert fs[0].op in OPS;
  }
}
