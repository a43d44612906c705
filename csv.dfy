/**
 * The comma-joined lists the application stores in single text columns
 * (`location_types.meter_numbers`, `meters.display_unit`): JavaScript's
 * `String.prototype.split(',')` and `Array.prototype.join(',')`.
 */
module Csv {
  import opened Results

  const Comma: char := ','

  /** `s.split(',')`: always at least one part, and no part holds a comma. */
  function Split(s: string): (parts: seq<string>)
    ensures |parts| >= 1
    ensures forall p :: p in parts ==> Comma !in p
  {
    if s == [] then [""]
    else
      var rest := Split(s[1..]);
      if s[0] == Comma then [""] + rest
      else [[s[0]] + rest[0]] + rest[1..]
  }

  /** `parts.join(',')`. */
  function Join(parts: seq<string>): string
  {
    if |parts| == 0 then ""
    else if |parts| == 1 then parts[0]
    else parts[0] + [Comma] + Join(parts[1..])
  }

  /**
   * `column ? column.split(',') : []`: a NULL or empty column is the empty
   * list, anything else is split.
   */
  function ParseList(column: Option<string>): (items: seq<string>)
    ensures column.None? || column.value == "" <==> items == []
    ensures forall p :: p in items ==> Comma !in p
  {
    if column.None? || column.value == "" then [] else Split(column.value)
  }

  /** `Join` on a list given by its head and the rest. */
  lemma JoinCons(head: string, rest: seq<string>)
    ensures Join([head] + rest) == if rest == [] then head else head + [Comma] + Join(rest)
  {
    var q := [head] + rest;
    assert q[0] == head;
    if rest != [] {
      assert q[1..] == rest;
    }
  }

  /** Extending the first part by one character extends the joined string by it. */
  lemma JoinConsChar(c: char, head: string, rest: seq<string>)
    ensures Join([[c] + head] + rest) == [c] + Join([head] + rest)
  {
    JoinCons([c] + head, rest);
    JoinCons(head, rest);
    if rest != [] {
      var j := Join(rest);
      assert ([c] + head) + [Comma] + j == [c] + (head + [Comma] + j);
    }
  }

  /** Splitting and re-joining a string gives back the string. */
  lemma {:induction false} JoinSplit(s: string)
    ensures Join(Split(s)) == s
  {
    if s != [] {
      var rest := Split(s[1..]);
      JoinSplit(s[1..]);
      if s[0] == Comma {
        assert ([""] + rest)[1..] == rest;
      } else {
        JoinConsChar(s[0], rest[0], rest[1..]);
        assert rest == [rest[0]] + rest[1..];
      }
      assert s == [s[0]] + s[1..];
    }
  }

  /** Splitting a joined list gives back the list when no item holds a comma. */
  lemma {:induction false} SplitJoin(parts: seq<string>)
    requires |parts| >= 1
    requires forall p :: p in parts ==> Comma !in p
    ensures Split(Join(parts)) == parts
  {
    if |parts| == 1 {
      SplitItem(parts[0]);
    } else {
      SplitJoin(parts[1..]);
      SplitPrefix(parts[0], Join(parts[1..]));
      assert parts == [parts[0]] + parts[1..];
    }
  }

  /** A single comma-free item splits to itself. */
  lemma {:induction false} SplitItem(w: string)
    requires Comma !in w
    ensures Split(w) == [w]
  {
    if w != [] {
      SplitItem(w[1..]);
      assert w == [w[0]] + w[1..];
    }
  }

  /** A comma-free item followed by a comma splits off as the first part. */
  lemma {:induction false} SplitPrefix(w: string, tail: string)
    requires Comma !in w
    ensures Split(w + [Comma] + tail) == [w] + Split(tail)
  {
    var s := w + [Comma] + tail;
    if w == [] {
      assert s == [Comma] + tail;
      assert s[1..] == tail;
    } else {
      assert s[1..] == w[1..] + [Comma] + tail;
      SplitPrefix(w[1..], tail);
      assert w == [w[0]] + w[1..];
    }
  }

  /** `ParseList` and `Join` are inverse on stored columns. */
  lemma JoinParseList(column: Option<string>)
    ensures Join(ParseList(column)) == column.GetOr("")
  {
    if column.Some? && column.value != "" {
      JoinSplit(column.value);
    }
  }

  /** A list of comma-free items survives being stored and read back. */
  lemma ParseListJoin(items: seq<string>)
    requires forall p :: p in items ==> Comma !in p
    requires items != [""]
    ensures ParseList(Some(Join(items))) == items
  {
    if items != [] {
      if |items| == 1 {
        assert Join(items) == items[0];
      } else {
        assert |Join(items)| > 0;
      }
      SplitJoin(items);
    }
  }

  /** Joining a list with one more item at the end appends a comma and the item. */
  lemma {:induction false} JoinSnoc(items: seq<string>, x: string)
    ensures Join(items + [x]) == if items == [] then x else Join(items) + [Comma] + x
  {
    if items != [] {
      var q := items + [x];
      assert q == [items[0]] + (items[1..] + [x]);
      JoinCons(items[0], items[1..] + [x]);
      JoinSnoc(items[1..], x);
      JoinCons(items[0], items[1..]);
      assert items == [items[0]] + items[1..];
    }
  }
}
