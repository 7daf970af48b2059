/** The repeatable command-line flag that collects the ignore patterns:
    every occurrence of the flag appends one value. */
module MultiValueFlag {
  import opened Outcomes

  /** The values collected so far, in command-line order. */
  datatype MultiValueFlag = MultiValueFlag(entries: seq<string>)

  /** Records one more occurrence of the flag. The source never reports an
      error here. */
  function Set(f: MultiValueFlag, value: string): (r: Result<MultiValueFlag>)
    ensures r.Ok?
    ensures |r.value.entries| == |f.entries| + 1
    ensures r.value.entries[..|f.entries|] == f.entries
    ensures r.value.entries[|f.entries|] == value
  {
    Ok(MultiValueFlag(f.entries + [value]))
  }

  /** `strings.Join`: the elements with `sep` between consecutive ones. */
  function Join(elems: seq<string>, sep: string): (s: string)
    ensures |elems| == 0 ==> s == ""
    ensures |elems| == 1 ==> s == elems[0]
    ensures |elems| > 0 ==> |s| == Width(elems) + (|elems| - 1) * |sep|
  {
    if |elems| == 0 then ""
    else if |elems| == 1 then elems[0]
    else elems[0] + sep + Join(elems[1..], sep)
  }

  /** The total length of the elements. */
  function Width(elems: seq<string>): nat
  {
    if |elems| == 0 then 0 else |elems[0]| + Width(elems[1..])
  }

  /** The flag's printed form: its values separated by ", " in brackets. */
  function String(f: MultiValueFlag): (s: string)
    ensures |s| >= 2 && s[0] == '[' && s[|s| - 1] == ']'
    ensures s[1..|s| - 1] == Join(f.entries, ", ")
  {
    "[" + Join(f.entries, ", ") + "]"
  }

  /** Joining one more element adds a separator and that element at the end. */
  lemma {:induction false} JoinSnoc(elems: seq<string>, x: string, sep: string)
    requires |elems| > 0
    ensures Join(elems + [x], sep) == Join(elems, sep) + sep + x
  {
    if |elems| == 1 {
      assert (elems + [x])[1..] == [x];
    } else {
      assert (elems + [x])[1..] == elems[1..] + [x];
      JoinSnoc(elems[1..], x, sep);
    }
  }

  /** Setting a value extends the printed form: the value appears last in
      the brackets, after ", " when earlier values exist. */
  lemma SetExtendsString(f: MultiValueFlag, value: string)
    ensures var s := String(f);
            String(Set(f, value).value) == if |f.entries| == 0 then "[" + value + "]" else s[..|s| - 1] + ", " + value + "]"
  {
    if |f.entries| > 0 {
      JoinSnoc(f.entries, value, ", ");
    }
  }

  /** Every occurrence of the flag, in command-line order. */
  function SetAll(f: MultiValueFlag, values: seq<string>): MultiValueFlag
    decreases |values|
  {
    if |values| == 0 then f else SetAll(Set(f, values[0]).value, values[1..])
  }

  /** Repeated occurrences accumulate in order after the existing entries;
      none is dropped, reordered or merged. */
  lemma {:induction false} SetAllAppendsInOrder(f: MultiValueFlag, values: seq<string>)
    ensures SetAll(f, values).entries == f.entries + values
    decreases |values|
  {
    if |values| > 0 {
      SetAllAppendsInOrder(Set(f, values[0]).value, values[1..]);
      assert f.entries + values == (f.entries + [values[0]]) + values[1..];
    }
  }
}
