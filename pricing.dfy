/** `update_pricing_file` without its file I/O: every pricable field of every
    row is multiplied and rounded up to the next whole cent. */
module Pricing {
  import opened Wrappers
  import opened Text

  /** A value of the loaded JSON document. JSON integers and floats are both `Num`. */
  datatype JsonValue =
    | Num(n: real)
    | Str(s: string)
    | Bool(b: bool)
    | Null
    | Arr(items: seq<JsonValue>)
    | Obj(fields: map<string, JsonValue>)

  /** One pricing record: a flat mapping from field name to value. */
  type Row = map<string, JsonValue>

  /** `x` is a whole number of cents. */
  predicate IsWholeCents(x: real)
  {
    (x * 100.0).Floor as real == x * 100.0
  }

  /** `math.ceil(x * 100) / 100`: the least whole-cent amount not below `x`. */
  function CeilToCent(x: real): (r: real)
    ensures IsWholeCents(r)
    ensures x <= r < x + 0.01
  {
    (-((-(x * 100.0)).Floor)) as real / 100.0
  }

  /** No whole-cent amount lies between `x` and its ceiling. */
  lemma CeilToCentLeast(x: real, c: real)
    requires IsWholeCents(c) && x <= c
    ensures CeilToCent(x) <= c
  {
    var k := (c * 100.0).Floor;
    var n := -((-(x * 100.0)).Floor);
    assert n as real < x * 100.0 + 1.0;
    assert x * 100.0 <= k as real;
    assert n <= k;
  }

  /** An amount already on a whole cent is left as it is. */
  lemma CeilToCentOnCent(x: real)
    requires IsWholeCents(x)
    ensures CeilToCent(x) == x
  {
    CeilToCentLeast(x, x);
  }

  /** The new price of one field: multiply, then round up to the cent. */
  function AdjustPrice(price: real, multiplier: real): (r: real)
    ensures IsWholeCents(r)
    ensures price * multiplier <= r < price * multiplier + 0.01
  {
    CeilToCent(price * multiplier)
  }

  /** `isinstance(v, (int, float))`; a JSON boolean passes too, because
      Python's `bool` is a subclass of `int`. */
  predicate IsNumeric(v: JsonValue)
  {
    v.Num? || v.Bool?
  }

  /** The number Python multiplies: `True` and `False` act as 1 and 0. */
  function NumericValue(v: JsonValue): real
    requires IsNumeric(v)
  {
    if v.Num? then v.n else if v.b then 1.0 else 0.0
  }

  /** One step of the inner loop: `row[tier]` is repriced when it is present
      and numeric. */
  function AdjustTier(row: Row, tier: string, multiplier: real): (r: Row)
    ensures r.Keys == row.Keys
    ensures forall k :: k in row && k != tier ==> r[k] == row[k]
    ensures tier in row && !IsNumeric(row[tier]) ==> r == row
  {
    if tier in row && IsNumeric(row[tier]) then
      row[tier := Num(AdjustPrice(NumericValue(row[tier]), multiplier))]
    else
      row
  }

  /** A row after the inner loop has visited `tiers` in order. */
  function AdjustRow(row: Row, tiers: seq<string>, multiplier: real): (r: Row)
    ensures r.Keys == row.Keys
  {
    if tiers == [] then row
    else AdjustTier(AdjustRow(row, tiers[..|tiers| - 1], multiplier), tiers[|tiers| - 1], multiplier)
  }

  /** The rows after the outer loop. */
  function UpdatedRows(rows: seq<Row>, tiers: seq<string>, multiplier: real): (r: seq<Row>)
    ensures |r| == |rows|
    ensures forall i :: 0 <= i < |rows| ==> r[i].Keys == rows[i].Keys
  {
    seq(|rows|, i requires 0 <= i < |rows| => AdjustRow(rows[i], tiers, multiplier))
  }

  /** Repricing a single value, independently of the row it sits in. */
  function AdjustValue(v: JsonValue, multiplier: real): JsonValue
  {
    if IsNumeric(v) then Num(AdjustPrice(NumericValue(v), multiplier)) else v
  }

  /** `AdjustValue` applied `n` times. */
  function AdjustTimes(v: JsonValue, n: nat, multiplier: real): JsonValue
  {
    if n == 0 then v else AdjustValue(AdjustTimes(v, n - 1, multiplier), multiplier)
  }

  /** Field by field, the row update is independent of the visiting order:
      it keeps the row's field names, and each field is repriced once per
      occurrence of its name in the tier list. */
  lemma {:induction false} AdjustRowFieldwise(row: Row, tiers: seq<string>, multiplier: real)
    ensures AdjustRow(row, tiers, multiplier).Keys == row.Keys
    ensures forall k :: k in row ==>
      AdjustRow(row, tiers, multiplier)[k] == AdjustTimes(row[k], Count(tiers, k), multiplier)
  {
    if tiers != [] {
      var init, last := tiers[..|tiers| - 1], tiers[|tiers| - 1];
      AdjustRowFieldwise(row, init, multiplier);
      assert tiers == init + [last];
      forall k | k in row
        ensures AdjustRow(row, tiers, multiplier)[k] == AdjustTimes(row[k], Count(tiers, k), multiplier)
      {
        CountConcat(init, [last], k);
        assert Count([last], k) == if last == k then 1 else 0;
      }
    }
  }

  /** A value that is not numeric is never repriced. */
  lemma {:induction false} AdjustTimesNonNumeric(v: JsonValue, n: nat, multiplier: real)
    requires !IsNumeric(v)
    ensures AdjustTimes(v, n, multiplier) == v
  {
    if n > 0 {
      AdjustTimesNonNumeric(v, n - 1, multiplier);
    }
  }

  /** A field keeps its value unless its name is a pricable tier and its
      value is numeric. */
  lemma UntouchedField(row: Row, tiers: seq<string>, multiplier: real, k: string)
    requires k in row
    requires k !in tiers || !IsNumeric(row[k])
    ensures k in AdjustRow(row, tiers, multiplier)
    ensures AdjustRow(row, tiers, multiplier)[k] == row[k]
  {
    AdjustRowFieldwise(row, tiers, multiplier);
    if k !in tiers {
      CountPositive(tiers, k);
    } else {
      AdjustTimesNonNumeric(row[k], Count(tiers, k), multiplier);
    }
  }

  /** A numeric field named exactly once among the tiers gets the new price
      `ceil(p * m * 100) / 100`; a boolean is priced as 0 or 1. */
  lemma RepricedField(row: Row, tiers: seq<string>, multiplier: real, k: string)
    requires k in row && IsNumeric(row[k]) && Count(tiers, k) == 1
    ensures k in AdjustRow(row, tiers, multiplier)
    ensures AdjustRow(row, tiers, multiplier)[k] == Num(AdjustPrice(NumericValue(row[k]), multiplier))
  {
    AdjustRowFieldwise(row, tiers, multiplier);
    assert AdjustTimes(row[k], 1, multiplier) == AdjustValue(row[k], multiplier);
  }

  lemma {:induction false} AdjustTimesOnCent(x: real, n: nat)
    requires IsWholeCents(x)
    ensures AdjustTimes(Num(x), n, 1.0) == Num(x)
  {
    if n > 0 {
      AdjustTimesOnCent(x, n - 1);
      CeilToCentOnCent(x);
    }
  }

  /** A 0% change leaves a row whose pricable fields are numbers on whole
      cents (or not numeric at all) exactly as it was. */
  lemma UnitMultiplierKeepsCents(row: Row, tiers: seq<string>)
    requires forall k :: k in row && k in tiers ==>
      !IsNumeric(row[k]) || (row[k].Num? && IsWholeCents(row[k].n))
    ensures AdjustRow(row, tiers, 1.0) == row
  {
    var r := AdjustRow(row, tiers, 1.0);
    AdjustRowFieldwise(row, tiers, 1.0);
    forall k | k in row ensures r[k] == row[k] {
      if k in tiers && IsNumeric(row[k]) {
        AdjustTimesOnCent(row[k].n, Count(tiers, k));
      } else {
        UntouchedField(row, tiers, 1.0, k);
      }
    }
  }

  /** The outer loop keeps the number and order of rows and every row's field
      names; with no pricable tiers nothing changes at all. */
  lemma UpdatedRowsShape(rows: seq<Row>, tiers: seq<string>, multiplier: real)
    ensures |UpdatedRows(rows, tiers, multiplier)| == |rows|
    ensures forall i :: 0 <= i < |rows| ==> UpdatedRows(rows, tiers, multiplier)[i].Keys == rows[i].Keys
    ensures tiers == [] ==> UpdatedRows(rows, tiers, multiplier) == rows
  {
    forall i | 0 <= i < |rows| ensures UpdatedRows(rows, tiers, multiplier)[i].Keys == rows[i].Keys {
      AdjustRowFieldwise(rows[i], tiers, multiplier);
    }
  }

  /** The price examples: 10.00 at +6% is 10.60, and the ceiling adds no
      spurious cent to 9.995 (giving 10.00) while 10.001 goes up to 10.01. */
  lemma PriceExamples()
    ensures AdjustPrice(10.0, 1.06) == 10.6
    ensures AdjustPrice(9.995, 1.0) == 10.0
    ensures AdjustPrice(10.001, 1.0) == 10.01
  {
    CeilToCentOnCent(10.6);
    CeilToCentLeast(9.995, 10.0);
    CeilToCentLeast(10.001, 10.01);
  }

  /** The row `{"size": "S", "small": 10.00, "large": 20.00, "other": 5}` with
      tiers `["small", "large"]` at +10% becomes
      `{"size": "S", "small": 11.00, "large": 22.00, "other": 5}`. */
  lemma RowExample()
    ensures AdjustRow(map["size" := Str("S"), "small" := Num(10.0), "large" := Num(20.0), "other" := Num(5.0)],
                      ["small", "large"], 1.1)
         == map["size" := Str("S"), "small" := Num(11.0), "large" := Num(22.0), "other" := Num(5.0)]
  {
    var row := map["size" := Str("S"), "small" := Num(10.0), "large" := Num(20.0), "other" := Num(5.0)];
    var tiers := ["small", "large"];
    CeilToCentOnCent(11.0);
    CeilToCentOnCent(22.0);
    assert tiers[..1] == ["small"] && ["small"][..0] == [];
    assert AdjustRow(row, ["small"], 1.1) == row["small" := Num(11.0)];
  }

  /** The loaded pricing document. */
  class PriceDocument {
    /** `data.get('pricable', [])`. */
    var pricable: seq<string>
    /** `data['rows']`, empty when the document has no `rows` key. */
    var rows: seq<Row>
    /** `'rows' in data`. */
    var hasRows: bool
    /** Every other top-level entry, written back as it was loaded. */
    var others: map<string, JsonValue>

    /** Rows exist only under a `rows` key, and the two keys the update reads
        are held in their own fields rather than among the other entries. */
    ghost predicate Valid()
      reads this
    {
      && (hasRows || rows == [])
      && "pricable" !in others && "rows" !in others
    }

    /** The document as loaded: `pricable` (the empty list when the key is
        absent), `rows` if present, and the remaining top-level entries. */
    constructor (pricable: seq<string>, rows: Option<seq<Row>>, entries: map<string, JsonValue>)
      ensures Valid()
      ensures this.pricable == pricable && others == entries - {"pricable", "rows"}
      ensures hasRows == rows.Some?
      ensures this.rows == if rows.Some? then rows.value else []
    {
      this.pricable := pricable;
      this.hasRows := rows.Some?;
      this.rows := if rows.Some? then rows.value else [];
      this.others := entries - {"pricable", "rows"};
    }

    /** The row and tier loops of `update_pricing_file`, rewriting fields in place. */
    method UpdatePrices(multiplier: real)
      requires Valid()
      modifies this`rows
      ensures Valid()
      ensures rows == UpdatedRows(old(rows), pricable, multiplier)
      ensures pricable == old(pricable) && hasRows == old(hasRows) && others == old(others)
      ensures |rows| == |old(rows)|
      ensures pricable == [] || !hasRows ==> rows == old(rows)
    {
      if hasRows {
        var i := 0;
        while i < |rows|
          invariant 0 <= i <= |rows| == |old(rows)|
          invariant forall j :: 0 <= j < i ==> rows[j] == AdjustRow(old(rows)[j], pricable, multiplier)
          invariant forall j :: i <= j < |rows| ==> rows[j] == old(rows)[j]
        {
          ghost var before := rows;
          var t := 0;
          while t < |pricable|
            invariant 0 <= t <= |pricable|
            invariant |rows| == |before|
            invariant rows[i] == AdjustRow(before[i], pricable[..t], multiplier)
            invariant forall j :: 0 <= j < |rows| && j != i ==> rows[j] == before[j]
          {
            var tier := pricable[t];
            if tier in rows[i] && IsNumeric(rows[i][tier]) {
              var newPrice := AdjustPrice(NumericValue(rows[i][tier]), multiplier);
              rows := rows[i := rows[i][tier := Num(newPrice)]];
            }
            assert pricable[..t + 1][..t] == pricable[..t];
            t := t + 1;
          }
          assert pricable[..|pricable|] == pricable;
          i := i + 1;
        }
      }
      UpdatedRowsShape(old(rows), pricable, multiplier);
    }
  }
}
