/** What texts, numbers and comparisons mean, measured against definitions of their own. */
module Values {
  import opened LogTable
  import opened Dictionary
  import opened Queries
  import opened Timestamps

  // ── Order ──────────────────────────────────────────────────────────────────

  /** The texts agree up to some place, where the first one ends or has the smaller character. */
  predicate LexBefore(a: string, b: string) {
    exists k :: 0 <= k <= |a| && k < |b| && a[..k] == b[..k] && (k == |a| || a[k] < b[k])
  }

  lemma {:induction false} TextLessIsLexicographic(a: string, b: string)
    ensures TextLess(a, b) <==> LexBefore(a, b)
  {
    if a != "" && b != "" && a[0] == b[0] {
      TextLessIsLexicographic(a[1..], b[1..]);
      LexBeforeTails(a, b);
    } else if TextLess(a, b) {
      assert a[..0] == b[..0];
    }
  }

  lemma LexBeforeTails(a: string, b: string)
    requires a != "" && b != "" && a[0] == b[0]
    ensures LexBefore(a, b) <==> LexBefore(a[1..], b[1..])
  {
    if k :| 0 <= k <= |a| && k < |b| && a[..k] == b[..k] && (k == |a| || a[k] < b[k]) {
      assert k > 0;
      assert a[1..][..k - 1] == a[..k][1..] && b[1..][..k - 1] == b[..k][1..];
    }
    var x, y := a[1..], b[1..];
    if k :| 0 <= k <= |x| && k < |y| && x[..k] == y[..k] && (k == |x| || x[k] < y[k]) {
      assert a[..k + 1] == [a[0]] + x[..k] && b[..k + 1] == [b[0]] + y[..k];
    }
  }

  /** Numbers by size, texts as in a dictionary, and every number before every text. */
  predicate ValueBefore(a: Cell, b: Cell) {
    || (a.Int? && b.Int? && a.n < b.n)
    || (a.Int? && b.Text?)
    || (a.Text? && b.Text? && LexBefore(a.s, b.s))
  }

  /** The six comparisons are those of one total order; NULL is on no side of any. */
  lemma ComparisonsAreOfOneOrder(a: Cell, b: Cell)
    ensures a == Null || b == Null ==> forall op :: !Compare(op, a, b)
    ensures a != Null && b != Null ==>
      && (Compare("=", a, b) <==> a == b) && (Compare("!=", a, b) <==> a != b)
      && (Compare("<", a, b) <==> ValueBefore(a, b)) && (Compare(">", a, b) <==> ValueBefore(b, a))
      && (Compare("<=", a, b) <==> ValueBefore(a, b) || a == b)
      && (Compare(">=", a, b) <==> ValueBefore(b, a) || a == b)
  {
    if a.Text? && b.Text? {
      TextLessIsLexicographic(a.s, b.s);
      TextLessIsLexicographic(b.s, a.s);
      if TextLess(a.s, b.s) {
        TextAsymmetric(a.s, b.s);
      } else if TextLess(b.s, a.s) {
        TextAsymmetric(b.s, a.s);
      } else {
        TextTotal(a.s, b.s);
      }
      NotBelowItself(a);
    }
    hide LexBefore, TextLess;
  }

  // ── Parts ──────────────────────────────────────────────────────────────────

  predicate PartAt(hay: string, needle: string, i: int) {
    0 <= i <= |hay| - |needle| && hay[i..i + |needle|] == needle
  }

  lemma {:induction false} ContainsExactlyWhen(hay: string, needle: string)
    ensures Contains(hay, needle) <==> exists i :: PartAt(hay, needle, i)
  {
    if needle <= hay {
      assert PartAt(hay, needle, 0);
    } else {
      if hay != "" {
        ContainsExactlyWhen(hay[1..], needle);
      }
      if i :| PartAt(hay, needle, i) {
        assert i > 0;
        assert hay[1..][i - 1..i - 1 + |needle|] == hay[i..i + |needle|];
        assert PartAt(hay[1..], needle, i - 1);
      }
      if hay != "" && Contains(hay[1..], needle) {
        var i :| PartAt(hay[1..], needle, i);
        assert hay[1..][i..i + |needle|] == hay[i + 1..i + 1 + |needle|];
        assert PartAt(hay, needle, i + 1);
      }
    }
  }

  // ── Numbers as texts ───────────────────────────────────────────────────────

  /** The number a row of decimal digits stands for. */
  function Decimal(s: string): int {
    if s == "" then 0 else 10 * Decimal(s[..|s| - 1]) + (s[|s| - 1] as int - '0' as int)
  }

  function ReadInt(s: string): int {
    if s != "" && s[0] == '-' then -Decimal(s[1..]) else Decimal(s)
  }

  lemma {:induction false} DigitsAreDigits(n: nat)
    ensures Digits(n) != "" && forall k :: 0 <= k < |Digits(n)| ==> '0' <= Digits(n)[k] <= '9'
    ensures Decimal(Digits(n)) == n && (n > 0 ==> Digits(n)[0] != '0')
  {
    var last := ['0' + (n % 10) as char];
    if n >= 10 {
      DigitsAreDigits(n / 10);
      assert (Digits(n / 10) + last)[..|Digits(n / 10)|] == Digits(n / 10);
    } else {
      assert last[..0] == "";
    }
  }

  /** A number's text reads back as the number, and is the shortest that does: no leading zero. */
  lemma DumpIntReadsBack(n: int)
    ensures var s := DumpInt(n);
            && ReadInt(s) == n
            && (if n < 0 then s[0] == '-' && s[1] != '0' else s[0] != '-' && (n > 0 ==> s[0] != '0'))
  {
    DigitsAreDigits(if n < 0 then -n else n);
    if n < 0 {
      assert ("-" + Digits(-n))[1..] == Digits(-n);
    }
  }

  // ── Stored values and filters ──────────────────────────────────────────────

  /** Filters print booleans as words, the column holds them as numbers; everything else has one text. */
  lemma FilterTextIsStoredTextExactlyWhen(v: Json)
    requires v != JNull
    ensures FilterText(v) == StoredText(v) <==> !v.JBool?
    ensures v.JBool? ==> if v.b then StoredText(v) == "1" && FilterText(v) == "true"
                         else StoredText(v) == "0" && FilterText(v) == "false"
  {
  }

  /** A filter for null asks for the word where it is matched as a text, and for nothing where it is bound. */
  lemma NullFilterMeansTheWord(f: Filter, cat: Catalog, lookup: Lookup, id: int, row: Row)
    requires f.value == JNull && (f.op == "~=" || f.op in COMPARISONS)
    ensures if f.op == "~=" || f.field in cat.compressed
            then ConditionOf(f, cat, lookup) == ConditionOf(f.(value := JText("null")), cat, lookup)
            else !Holds1(ConditionOf(f, cat, lookup), id, row)
  {
  }

  /** So a filter for equality with a value finds it in a compressed column if and only if it is no boolean. */
  lemma EqualityFindsValueExactlyWhen(cat: Catalog, lookup: Lookup, column: string, v: Json, id: int, n: int, row: Row)
    requires v != JNull && Injective(lookup) && column in cat.compressed && CellOf(id, row, column) == Int(n)
    requires Holds(lookup, DictRow(column, StoredText(v), n))
    ensures Holds1(ConditionOf(Filter(column, "=", v), cat, lookup), id, row) <==> !v.JBool?
  {
    FilterTextIsStoredTextExactlyWhen(v);
    CandidateIsTheText(lookup, column, "=", FilterText(v), StoredText(v), n);
    hide StoredText, FilterText, Candidates;
  }

  // ── Columns ────────────────────────────────────────────────────────────────

  /** The data columns are those that are no key, in the order of the table. */
  lemma {:induction false} NonKeysAreTheOthers(columns: seq<Column>, c: Column)
    ensures c in NonKeys(columns) <==> c in columns && !c.isKey
  {
    if columns != [] {
      NonKeysAreTheOthers(columns[..|columns| - 1], c);
      assert columns == columns[..|columns| - 1] + [columns[|columns| - 1]];
    }
  }

  lemma {:induction false} NonKeysInOrder(a: seq<Column>, b: seq<Column>)
    ensures NonKeys(a + b) == NonKeys(a) + NonKeys(b)
  {
    if b == [] {
      assert a + b == a;
    } else {
      assert (a + b)[..|a + b| - 1] == a + b[..|b| - 1];
      NonKeysInOrder(a, b[..|b| - 1]);
    }
  }
}
