/** Separator-delimited text and runs of fixed-width fields. */
module Segments {
  import opened Common

  /** `str::split`: the pieces between separators, always at least one. */
  function Split(text: Bytes, separator: byte): (parts: seq<Bytes>)
    ensures |parts| > 0
  {
    if text == [] then [[]]
    else
      var rest := Split(text[1..], separator);
      if text[0] == separator then [[]] + rest else [[text[0]] + rest[0]] + rest[1..]
  }

  function Join(parts: seq<Bytes>, separator: byte): Bytes
    requires |parts| > 0
  {
    if |parts| == 1 then parts[0] else parts[0] + [separator] + Join(parts[1..], separator)
  }

  lemma {:induction false} SplitThenJoin(text: Bytes, separator: byte)
    ensures Join(Split(text, separator), separator) == text
    ensures forall part :: part in Split(text, separator) ==> separator !in part
  {
    if text != [] {
      SplitThenJoin(text[1..], separator);
      var rest := Split(text[1..], separator);
      if text[0] == separator {
        assert ([[]] + rest)[1..] == rest;
        assert [] + [separator] + text[1..] == text;
      } else {
        var parts := [[text[0]] + rest[0]] + rest[1..];
        assert parts[1..] == rest[1..];
        assert [text[0]] + text[1..] == text;
        if |rest| > 1 {
          assert parts[0] + [separator] + Join(rest[1..], separator) == [text[0]] + Join(rest, separator);
        }
      }
    }
  }

  lemma {:induction false} SplitAfter(part: Bytes, rest: Bytes, separator: byte)
    requires separator !in part
    ensures Split(part + [separator] + rest, separator) == [part] + Split(rest, separator)
  {
    var text := part + [separator] + rest;
    if part == [] {
      assert text[1..] == rest;
    } else {
      SplitAfter(part[1..], rest, separator);
      assert text[1..] == part[1..] + [separator] + rest;
      assert [part[0]] + part[1..] == part;
      assert ([part[1..]] + Split(rest, separator))[1..] == Split(rest, separator);
    }
  }

  lemma {:induction false} SplitWhole(part: Bytes, separator: byte)
    requires separator !in part
    ensures Split(part, separator) == [part]
  {
    if part != [] {
      SplitWhole(part[1..], separator);
      assert [part[0]] + part[1..] == part;
    }
  }

  lemma {:induction false} JoinThenSplit(parts: seq<Bytes>, separator: byte)
    requires |parts| > 0
    requires forall part :: part in parts ==> separator !in part
    ensures Split(Join(parts, separator), separator) == parts
  {
    if |parts| == 1 {
      SplitWhole(parts[0], separator);
    } else {
      JoinThenSplit(parts[1..], separator);
      SplitAfter(parts[0], Join(parts[1..], separator), separator);
    }
  }

  /** The bytes fed to a hasher by one `update` a field, or laid out by one `put` a field. */
  function Concat(fields: seq<Bytes>): Bytes {
    if fields == [] then [] else fields[0] + Concat(fields[1..])
  }

  lemma {:induction false} ConcatAppend(fields: seq<Bytes>, field: Bytes)
    ensures Concat(fields + [field]) == Concat(fields) + field
  {
    if fields == [] {
      assert Concat([field]) == field + Concat([]);
    } else {
      ConcatAppend(fields[1..], field);
      assert (fields + [field])[1..] == fields[1..] + [field];
      assert Concat(fields + [field]) == fields[0] + (Concat(fields[1..]) + field);
    }
  }

  lemma Regroup(x: Bytes, y: Bytes, z: Bytes)
    ensures x + (y + z) == x + y + z
  {
  }

  lemma {:induction false} ConcatPlus(a: seq<Bytes>, b: seq<Bytes>)
    ensures Concat(a + b) == Concat(a) + Concat(b)
  {
    if a == [] {
      assert a + b == b;
    } else {
      ConcatPlus(a[1..], b);
      assert (a + b)[0] == a[0] && (a + b)[1..] == a[1..] + b;
      assert Concat(a + b) == a[0] + Concat(a[1..] + b) && Concat(a) == a[0] + Concat(a[1..]);
      hide Concat;
      Regroup(a[0], Concat(a[1..]), Concat(b));
    }
  }

  lemma ConcatFour(a: Bytes, b: Bytes, c: Bytes, d: Bytes)
    ensures Concat([a]) == a
    ensures Concat([a, b]) == a + b
    ensures Concat([a, b, c]) == a + b + c
    ensures Concat([a, b, c, d]) == a + b + c + d
  {
    ConcatPlus([a], [b]);
    ConcatPlus([a, b], [c]);
    ConcatPlus([a, b, c], [d]);
    assert [a] + [b] == [a, b] && [a, b] + [c] == [a, b, c] && [a, b, c] + [d] == [a, b, c, d];
    assert forall x: Bytes :: Concat([x]) == x + Concat([]) == x;
  }

  /** Fields whose widths agree, save perhaps the last, are determined by their concatenation. */
  lemma {:induction false} ConcatInjective(a: seq<Bytes>, b: seq<Bytes>)
    requires |a| == |b|
    requires forall i :: 0 <= i < |a| - 1 ==> |a[i]| == |b[i]|
    requires Concat(a) == Concat(b)
    ensures a == b
  {
    if |a| == 1 {
      assert Concat(a) == a[0] + Concat([]) && Concat(b) == b[0] + Concat([]);
    } else if |a| > 1 {
      assert Concat(a)[..|a[0]|] == a[0] && Concat(b)[..|a[0]|] == b[0];
      assert Concat(a)[|a[0]|..] == Concat(a[1..]) && Concat(b)[|a[0]|..] == Concat(b[1..]);
      ConcatInjective(a[1..], b[1..]);
      assert a == [a[0]] + a[1..] && b == [b[0]] + b[1..];
    }
  }

  predicate Spans(field: Bytes, from: nat, to: nat) {
    from + |field| == to
  }

  /** Fields that span consecutive offsets concatenate to the whole distance. */
  lemma {:induction false} ConcatSpan(fields: seq<Bytes>, cuts: seq<nat>)
    requires |cuts| == |fields| + 1
    requires forall i :: 0 <= i < |fields| ==> Spans(fields[i], cuts[i], cuts[i + 1])
    ensures cuts[0] + |Concat(fields)| == cuts[|fields|]
  {
    if fields != [] {
      assert Spans(fields[0], cuts[0], cuts[1]);
      ConcatSpan(fields[1..], cuts[1..]);
    }
  }

  predicate IsSlice(bytes: Bytes, field: Bytes, from: nat, to: nat) {
    from <= to <= |bytes| && field == bytes[from..to]
  }

  /** Adjacent slices cut at increasing offsets concatenate to the whole range. */
  lemma {:induction false} AdjacentSlices(bytes: Bytes, fields: seq<Bytes>, cuts: seq<nat>)
    requires |cuts| == |fields| + 1 && cuts[0] <= |bytes|
    requires forall i :: 0 <= i < |fields| ==> IsSlice(bytes, fields[i], cuts[i], cuts[i + 1])
    ensures cuts[0] <= cuts[|fields|] <= |bytes|
    ensures Concat(fields) == bytes[cuts[0]..cuts[|fields|]]
  {
    if fields != [] {
      assert IsSlice(bytes, fields[0], cuts[0], cuts[1]);
      assert forall i :: 0 <= i < |fields| - 1 ==> fields[1..][i] == fields[i + 1];
      AdjacentSlices(bytes, fields[1..], cuts[1..]);
    }
  }
}
