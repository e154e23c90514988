/**
 * Turning an accepted query into the feature row the regressor is given: the
 * one-hot encoding of the single input row, then its alignment with the saved
 * list of feature names (missing columns added with value 0, then the row
 * projected onto exactly that list, in that order).
 */
module FeatureAlignment {
  import opened Wrappers
  import opened InputValidation

  /** One column of the one-row data frame. */
  datatype Column = Column(name: string, value: int)

  /** A one-row data frame: its columns in order, each with the row's value. */
  type Row = seq<Column>

  /** `name in df.columns` */
  predicate HasColumn(row: Row, name: string)
    ensures HasColumn(row, name) <==> exists v :: Column(name, v) in row
  {
    exists k :: 0 <= k < |row| && row[k].name == name
  }

  /** No column name occurs twice (what a frame built by the encoding has). */
  predicate DistinctNames(row: Row) {
    forall j, k :: 0 <= j < k < |row| ==> row[j].name != row[k].name
  }

  /** The value in the column called `name`, the first such column if several. */
  function ValueOf(row: Row, name: string): (v: Option<int>)
    ensures v.Some? <==> HasColumn(row, name)
    ensures v.Some? ==> Column(name, v.value) in row
  {
    if row == [] then None
    else if row[0].name == name then Some(row[0].value)
    else ValueOf(row[1..], name)
  }

  /** Looking a name up in a concatenation finds it in the first part if it is there. */
  lemma {:induction false} ValueOfAppend(a: Row, b: Row, name: string)
    ensures ValueOf(a + b, name) == if HasColumn(a, name) then ValueOf(a, name) else ValueOf(b, name)
  {
    if a == [] {
      assert a + b == b;
    } else {
      assert (a + b)[1..] == a[1..] + b;
      HasColumnTail(a, name);
      ValueOfAppend(a[1..], b, name);
    }
  }

  lemma HasColumnTail(row: Row, name: string)
    requires row != []
    ensures HasColumn(row, name) <==> row[0].name == name || HasColumn(row[1..], name)
  {
  }

  /** A column appended at the end is found, and so is every column already present. */
  lemma HasColumnSnoc(row: Row, c: Column, name: string)
    ensures HasColumn(row + [c], name) <==> HasColumn(row, name) || c.name == name
  {
    if HasColumn(row, name) {
      var k :| 0 <= k < |row| && row[k].name == name;
      assert (row + [c])[k].name == name;
    }
    assert (row + [c])[|row|] == c;
  }

  /** With distinct names a column of the row is the one its name finds. */
  lemma ValueOfMember(row: Row, c: Column)
    requires DistinctNames(row) && c in row
    ensures ValueOf(row, c.name) == Some(c.value)
  {
  }

  const HolidayColumn: string := "Holiday"
  const DayPrefix: string := "Day_of_Week_"
  const WeatherPrefix: string := "Weather_"

  /**
   * `pd.get_dummies` of the one-row frame (Day_of_Week, Weather, Holiday) over
   * the day and weather columns: the untouched Holiday column first, then one
   * indicator column per encoded column, named prefix + "_" + value and set.
   */
  function Encode(q: Query): (row: Row)
    ensures DistinctNames(row)
    ensures ValueOf(row, HolidayColumn) == Some(q.holiday)
    ensures ValueOf(row, DayPrefix + q.day) == Some(1)
    ensures ValueOf(row, WeatherPrefix + q.weather) == Some(1)
    ensures forall n :: HasColumn(row, n) <==> n in {HolidayColumn, DayPrefix + q.day, WeatherPrefix + q.weather}
  {
    var day := DayPrefix + q.day;
    var weather := WeatherPrefix + q.weather;
    assert day[0] == 'D' && weather[0] == 'W' && HolidayColumn[0] == 'H';
    var row := [Column(HolidayColumn, q.holiday), Column(day, 1), Column(weather, 1)];
    assert row[1..][1..] == [Column(weather, 1)];
    assert forall n :: HasColumn(row, n) <==> n == HolidayColumn || n == day || n == weather by {
      forall n ensures HasColumn(row, n) <==> n == HolidayColumn || n == day || n == weather {
        HasColumnTail(row, n);
        HasColumnTail(row[1..], n);
        HasColumnTail(row[1..][1..], n);
      }
    }
    row
  }

  /**
   * The loop that adds every listed feature the frame lacks, with value 0
   * (`input_data[col] = 0`), one column at a time.
   */
  method AddMissingColumns(encoded: Row, features: seq<string>) returns (extended: Row)
    requires DistinctNames(encoded)
    ensures |encoded| <= |extended| && extended[..|encoded|] == encoded
    ensures forall k :: |encoded| <= k < |extended| ==>
              extended[k].value == 0 && extended[k].name in features && !HasColumn(encoded, extended[k].name)
    ensures forall f :: f in features ==> HasColumn(extended, f)
    ensures DistinctNames(extended)
  {
    extended := encoded;
    for i := 0 to |features|
      invariant |encoded| <= |extended| && extended[..|encoded|] == encoded
      invariant forall k :: |encoded| <= k < |extended| ==>
                  extended[k].value == 0 && extended[k].name in features[..i] && !HasColumn(encoded, extended[k].name)
      invariant forall j :: 0 <= j < i ==> HasColumn(extended, features[j])
      invariant DistinctNames(extended)
    {
      var col := features[i];
      if !HasColumn(extended, col) {
        forall n ensures HasColumn(extended + [Column(col, 0)], n) <==> HasColumn(extended, n) || n == col {
          HasColumnSnoc(extended, Column(col, 0), n);
        }
        extended := extended + [Column(col, 0)];
      }
    }
    assert features[..|features|] == features;
  }

  /**
   * `df[feature_names]`: the columns named by the list, in its order; a
   * name the frame lacks raises a KeyError, modelled as None.
   */
  function Select(row: Row, features: seq<string>): (r: Option<Row>)
    requires DistinctNames(row)
    ensures r.Some? <==> forall f :: f in features ==> HasColumn(row, f)
    ensures r.Some? ==> |r.value| == |features|
    ensures r.Some? ==> forall i :: 0 <= i < |features| ==> r.value[i].name == features[i] && r.value[i] in row
  {
    if forall i :: 0 <= i < |features| ==> HasColumn(row, features[i]) then
      Some(seq(|features|, i requires 0 <= i < |features| && HasColumn(row, features[i]) =>
        Column(features[i], ValueOf(row, features[i]).value)))
    else
      None
  }

  /**
   * What alignment means: the feature list itself as columns, each holding
   * the encoded value of that name if the encoding produced it and 0 if not.
   */
  function Reindexed(encoded: Row, features: seq<string>): (aligned: Row)
    ensures |aligned| == |features|
    ensures forall i :: 0 <= i < |features| ==> aligned[i].name == features[i]
    ensures forall n :: HasColumn(aligned, n) <==> n in features
    ensures forall i :: 0 <= i < |features| && HasColumn(encoded, features[i]) ==> aligned[i] in encoded
    ensures forall i :: 0 <= i < |features| && !HasColumn(encoded, features[i]) ==> aligned[i].value == 0
  {
    var aligned := seq(|features|, i requires 0 <= i < |features| =>
      Column(features[i], ValueOf(encoded, features[i]).GetOr(0)));
    assert forall n :: n in features ==> HasColumn(aligned, n) by {
      forall n | n in features ensures HasColumn(aligned, n) {
        var i :| 0 <= i < |features| && features[i] == n;
        assert aligned[i].name == n;
      }
    }
    aligned
  }

  /** Alignment as the handler does it: add the missing columns, then project onto the list. */
  method Align(encoded: Row, features: seq<string>) returns (aligned: Row)
    requires DistinctNames(encoded)
    ensures aligned == Reindexed(encoded, features)
  {
    var extended := AddMissingColumns(encoded, features);
    var selected := Select(extended, features);
    aligned := selected.value;
    var added := extended[|encoded|..];
    assert extended == encoded + added;
    forall i | 0 <= i < |features|
      ensures aligned[i] == Reindexed(encoded, features)[i]
    {
      var f := features[i];
      ValueOfMember(extended, aligned[i]);
      ValueOfAppend(encoded, added, f);
      if !HasColumn(encoded, f) {
        var c := Column(f, ValueOf(added, f).value);
        var k :| 0 <= k < |added| && added[k] == c;
        assert extended[|encoded| + k] == c;
      }
    }
  }

  /**
   * The row the regressor receives for an accepted query: the holiday under
   * "Holiday", 1 under the day's and the weather's indicator features, and 0
   * under every other listed feature, whatever the list holds.
   */
  lemma AlignedQuery(q: Query, features: seq<string>, i: int)
    requires 0 <= i < |features|
    ensures Reindexed(Encode(q), features)[i].value ==
      if features[i] == HolidayColumn then q.holiday
      else if features[i] == DayPrefix + q.day || features[i] == WeatherPrefix + q.weather then 1
      else 0
  {
  }
}
