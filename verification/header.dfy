/**
 The header multi-map and its serialiser `Header.WriteSubset`.

 A header maps each name, with the casing it was stored under, to its values
 in stored order. Serialising drops the excluded names and the Header-Order
 pseudo-header, chooses the emission order (the Header-Order list when the
 header holds one, otherwise ascending byte-wise order), and writes one line
 `Name: value` terminated by CR LF per stored value.

 The byte sink becomes the returned string. The third argument of the Go
 method, `0` at every call in `header_test.go`, is not a parameter here; the
 model describes the behaviour at that value.
 */
module Header {
  import opened Wrappers
  import opened Strings
  import opened SortedKeys
  import opened HeaderOrder

  type Header = map<string, seq<string>>

  /** The reserved Header-Order pseudo-header. Its value list, when present,
      is the emission order. The name stands for the library's constant; the
      colon keeps it apart from every valid header field name. */
  const OrderKey: string := "Header-Order:"

  /** One emitted line: a stored name and one of its values. */
  datatype Field = Field(name: string, value: string)

  /** The names that may be emitted: stored, not excluded, not the order key. */
  function Candidates(h: Header, exclude: set<string>): set<string>
  {
    h.Keys - exclude - {OrderKey}
  }

  /** The order list in force: the Header-Order values, or none. */
  function OrderList(h: Header): seq<string>
  {
    if OrderKey in h then h[OrderKey] else []
  }

  /** The names to emit, in emission order. */
  function EmissionOrder(h: Header, exclude: set<string>): (names: seq<string>)
    ensures forall n :: n in names <==> n in h && n !in exclude && n != OrderKey
    ensures OrderKey !in h ==> Ascending(names)
    ensures OrderKey in h ==> SortedBy(h[OrderKey], names)
  {
    if OrderKey in h then Resolve(h[OrderKey], Candidates(h, exclude))
    else SortSet(Candidates(h, exclude))
  }

  /** The emission order is the only listing of the candidate names that is
      sorted (byte-wise, or by the Header-Order list when there is one): it
      depends on the header's contents and on nothing else. */
  lemma EmissionOrderUnique(h: Header, exclude: set<string>, names: seq<string>)
    requires forall n :: n in names <==> n in h && n !in exclude && n != OrderKey
    requires SortedBy(OrderList(h), names)
    ensures EmissionOrder(h, exclude) == names
  {
    DefaultOrderIsAscending(EmissionOrder(h, exclude));
    SortedByUnique(OrderList(h), EmissionOrder(h, exclude), names);
  }

  /** With a Header-Order list naming each candidate once, up to ASCII case,
      the names come out in the list's order with their stored casing. */
  lemma CustomOrderFollowsList(h: Header, exclude: set<string>, names: seq<string>)
    requires OrderKey in h && |names| == |h[OrderKey]|
    requires forall i :: 0 <= i < |names| ==> EqualFold(h[OrderKey][i], names[i])
    requires forall i, j :: 0 <= i < j < |names| ==> !EqualFold(names[i], names[j])
    requires forall n :: n in names <==> n in h && n !in exclude && n != OrderKey
    ensures EmissionOrder(h, exclude) == names
  {
    ResolveFollowsList(h[OrderKey], Candidates(h, exclude), names);
  }

  /** One field per value of `n`, in stored order. */
  function Expand(n: string, vs: seq<string>): (fs: seq<Field>)
    ensures |fs| == |vs|
    ensures forall k :: 0 <= k < |vs| ==> fs[k] == Field(n, vs[k])
  {
    if |vs| == 0 then [] else [Field(n, vs[0])] + Expand(n, vs[1..])
  }

  /** The values stored under `n`; none when `n` is not stored (a lookup of
      a missing key yields an empty list). */
  function ValuesAt(h: Header, n: string): seq<string>
  {
    if n in h then h[n] else []
  }

  /** The fields of the given names, name after name. */
  function Fields(h: Header, names: seq<string>): seq<Field>
  {
    if |names| == 0 then [] else Expand(names[0], ValuesAt(h, names[0])) + Fields(h, names[1..])
  }

  /** The values emitted under the name `n`, in emission order. */
  function ValuesOf(fs: seq<Field>, n: string): seq<string>
  {
    if |fs| == 0 then []
    else (if fs[0].name == n then [fs[0].value] else []) + ValuesOf(fs[1..], n)
  }

  lemma {:induction false} ValuesOfAppend(a: seq<Field>, b: seq<Field>, n: string)
    ensures ValuesOf(a + b, n) == ValuesOf(a, n) + ValuesOf(b, n)
  {
    if |a| == 0 {
      assert a + b == b;
    } else {
      var ab := a + b;
      assert ab[0] == a[0] && ab[1..] == a[1..] + b;
      ValuesOfAppend(a[1..], b, n);
      assert ValuesOf(ab, n) == (if a[0].name == n then [a[0].value] else []) + ValuesOf(a[1..] + b, n);
    }
  }

  lemma {:induction false} ValuesOfExpand(m: string, vs: seq<string>, n: string)
    ensures ValuesOf(Expand(m, vs), n) == if m == n then vs else []
  {
    if |vs| > 0 {
      assert Expand(m, vs)[1..] == Expand(m, vs[1..]);
      ValuesOfExpand(m, vs[1..], n);
    }
  }

  /** For distinct names, the values emitted under each name are exactly its
      stored values, in stored order; a name not listed gets none. */
  lemma {:induction false} FieldsValues(h: Header, names: seq<string>, n: string)
    requires forall m :: m in names ==> m in h
    requires forall i, j :: 0 <= i < j < |names| ==> names[i] != names[j]
    ensures ValuesOf(Fields(h, names), n) == if n in names then h[n] else []
  {
    if |names| > 0 {
      ValuesOfAppend(Expand(names[0], ValuesAt(h, names[0])), Fields(h, names[1..]), n);
      ValuesOfExpand(names[0], h[names[0]], n);
      FieldsValues(h, names[1..], n);
      if n == names[0] {
        assert n !in names[1..];
      }
    }
  }

  /** Every field carries a listed name and one of that name's values. */
  lemma {:induction false} FieldsFromNames(h: Header, names: seq<string>)
    requires forall m :: m in names ==> m in h
    ensures forall k :: 0 <= k < |Fields(h, names)| ==>
              Fields(h, names)[k].name in names && Fields(h, names)[k].value in h[Fields(h, names)[k].name]
  {
    if |names| > 0 {
      FieldsFromNames(h, names[1..]);
      var head := Expand(names[0], ValuesAt(h, names[0]));
      var fs := Fields(h, names);
      forall k | 0 <= k < |fs|
        ensures fs[k].name in names && fs[k].value in h[fs[k].name]
      {
        if k >= |head| {
          assert fs[k] == Fields(h, names[1..])[k - |head|];
        }
      }
    }
  }

  /** Fields of a sorted name list come out grouped by name, the groups in
      the list's order. */
  lemma {:induction false} FieldsFollowOrder(h: Header, order: seq<string>, names: seq<string>)
    requires forall m :: m in names ==> m in h
    requires SortedBy(order, names)
    ensures forall i, j :: 0 <= i < j < |Fields(h, names)| && Fields(h, names)[i].name != Fields(h, names)[j].name ==>
              Before(order, Fields(h, names)[i].name, Fields(h, names)[j].name)
  {
    if |names| > 0 {
      var head := Expand(names[0], ValuesAt(h, names[0]));
      var tail := Fields(h, names[1..]);
      var fs := Fields(h, names);
      FieldsFollowOrder(h, order, names[1..]);
      FieldsFromNames(h, names[1..]);
      forall i, j | 0 <= i < j < |fs| && fs[i].name != fs[j].name
        ensures Before(order, fs[i].name, fs[j].name)
      {
        if j < |head| {
        } else if i < |head| {
          assert fs[i].name == names[0];
          assert fs[j] == tail[j - |head|];
          var m := fs[j].name;
          assert m in names[1..];
          var k :| 1 <= k < |names| && names[k] == m;
        } else {
          assert fs[i] == tail[i - |head|] && fs[j] == tail[j - |head|];
        }
      }
    }
  }

  /** The (name, value) pairs `WriteSubset` writes, in writing order. */
  function Emitted(h: Header, exclude: set<string>): (fs: seq<Field>)
    ensures forall k :: 0 <= k < |fs| ==>
              fs[k].name in h && fs[k].name !in exclude && fs[k].name != OrderKey
    ensures forall n :: ValuesOf(fs, n) == if n in h && n !in exclude && n != OrderKey then h[n] else []
    ensures OrderKey !in h ==>
              forall i, j :: 0 <= i < j < |fs| && fs[i].name != fs[j].name ==> Less(fs[i].name, fs[j].name)
    ensures OrderKey in h ==>
              forall i, j :: 0 <= i < j < |fs| && fs[i].name != fs[j].name ==> Before(h[OrderKey], fs[i].name, fs[j].name)
  {
    var names := EmissionOrder(h, exclude);
    EmittedNames(h, exclude, names);
    EmittedValues(h, exclude, names);
    EmittedGrouped(h, exclude, names);
    Fields(h, names)
  }

  /** Every emitted field carries a candidate name. */
  lemma EmittedNames(h: Header, exclude: set<string>, names: seq<string>)
    requires names == EmissionOrder(h, exclude)
    ensures forall k :: 0 <= k < |Fields(h, names)| ==>
              Fields(h, names)[k].name in h && Fields(h, names)[k].name !in exclude && Fields(h, names)[k].name != OrderKey
  {
    FieldsFromNames(h, names);
  }

  /** Each candidate name is emitted with exactly its stored values, in
      stored order; every other name with none. */
  lemma EmittedValues(h: Header, exclude: set<string>, names: seq<string>)
    requires names == EmissionOrder(h, exclude)
    ensures forall n :: ValuesOf(Fields(h, names), n) == if n in h && n !in exclude && n != OrderKey then h[n] else []
  {
    SortedByDistinct(OrderList(h), names);
    forall n
      ensures ValuesOf(Fields(h, names), n) == if n in h && n !in exclude && n != OrderKey then h[n] else []
    {
      FieldsValues(h, names, n);
    }
  }

  /** The emitted fields come out grouped by name, the groups in emission
      order: byte-wise without an order list, by the list with one. */
  lemma EmittedGrouped(h: Header, exclude: set<string>, names: seq<string>)
    requires names == EmissionOrder(h, exclude)
    ensures OrderKey !in h ==>
              forall i, j :: 0 <= i < j < |Fields(h, names)| && Fields(h, names)[i].name != Fields(h, names)[j].name ==>
                Less(Fields(h, names)[i].name, Fields(h, names)[j].name)
    ensures OrderKey in h ==>
              forall i, j :: 0 <= i < j < |Fields(h, names)| && Fields(h, names)[i].name != Fields(h, names)[j].name ==>
                Before(h[OrderKey], Fields(h, names)[i].name, Fields(h, names)[j].name)
  {
    DefaultOrderIsAscending(names);
    FieldsFollowOrder(h, OrderList(h), names);
  }

  /** One header line: the stored name, a colon and a space, the value
      verbatim, CR LF. */
  function Line(f: Field): string
  {
    f.name + ": " + f.value + "\r\n"
  }

  function Render(fs: seq<Field>): string
  {
    if |fs| == 0 then "" else Line(fs[0]) + Render(fs[1..])
  }

  /** The serialiser: the header block for `h` without the names in `exclude`,
      one `Line` per emitted field. The block is empty exactly when no
      emitted name has a value: an empty header, every name excluded, or only
      empty value lists. `WriteSubsetReadsBack` states what the block holds. */
  function WriteSubset(h: Header, exclude: set<string>): (block: string)
    ensures block == "" <==>
              forall n :: n in h && n !in exclude && n != OrderKey ==> h[n] == []
  {
    Render(Emitted(h, exclude))
  }

  /** Rendering is line by line: the block of a concatenation is the
      concatenation of the blocks. */
  lemma {:induction false} RenderAppend(a: seq<Field>, b: seq<Field>)
    ensures Render(a + b) == Render(a) + Render(b)
  {
    if |a| == 0 {
      assert a + b == b;
    } else {
      assert (a + b)[1..] == a[1..] + b;
      RenderAppend(a[1..], b);
    }
  }

  /** `names` lists the candidate names of `h`, each adjacent pair in
      emission order. */
  ghost predicate SortedListing(h: Header, exclude: set<string>, names: seq<string>)
  {
    && (forall n :: n in names <==> n in h && n !in exclude && n != OrderKey)
    && (forall i :: 0 <= i < |names| - 1 ==> Before(OrderList(h), names[i], names[i + 1]))
  }

  /** The block for a header, given the listing of its candidate names in
      emission order. */
  lemma WriteSubsetOfSortedNames(h: Header, exclude: set<string>, names: seq<string>)
    requires SortedListing(h, exclude, names)
    ensures WriteSubset(h, exclude) == Render(Fields(h, names))
  {
    SortedByFromAdjacent(OrderList(h), names);
    EmissionOrderUnique(h, exclude, names);
  }

  /** The fields of two name lists written one after the other. */
  lemma {:induction false} FieldsAppend(h: Header, a: seq<string>, b: seq<string>)
    ensures Fields(h, a + b) == Fields(h, a) + Fields(h, b)
  {
    if |a| == 0 {
      assert a + b == b;
    } else {
      assert (a + b)[1..] == a[1..] + b;
      FieldsAppend(h, a[1..], b);
    }
  }

  /** Listing one more name appends the lines of its values to the block. */
  lemma RenderFieldsSnoc(h: Header, names: seq<string>, n: string)
    ensures Render(Fields(h, names + [n])) == Render(Fields(h, names)) + Render(Expand(n, ValuesAt(h, n)))
  {
    FieldsAppend(h, names, [n]);
    assert [n][1..] == [];
    assert Fields(h, [n]) == Expand(n, ValuesAt(h, n)) + [] == Expand(n, ValuesAt(h, n));
    RenderAppend(Fields(h, names), Expand(n, ValuesAt(h, n)));
  }

  /** One more value of a name appends one more line. */
  lemma RenderExpandSnoc(n: string, vs: seq<string>, v: string)
    ensures Render(Expand(n, vs + [v])) == Render(Expand(n, vs)) + (n + ": " + v + "\r\n")
  {
    assert Expand(n, vs + [v]) == Expand(n, vs) + [Field(n, v)];
    assert [Field(n, v)][1..] == [];
    RenderAppend(Expand(n, vs), [Field(n, v)]);
  }

  /** First position of `c` in `s`, or `|s|` when it does not occur. */
  function IndexOf(s: string, c: char): (i: nat)
    ensures i <= |s|
    ensures i < |s| ==> s[i] == c
    ensures forall j :: 0 <= j < i ==> s[j] != c
  {
    if |s| == 0 then 0
    else if s[0] == c then 0
    else 1 + IndexOf(s[1..], c)
  }

  /** Reads a header block back: each line is split at its first colon,
      which must be followed by a space, and ends at its first CR, which must
      be followed by LF. */
  function Parse(s: string): Option<seq<Field>>
    decreases |s|
  {
    if |s| == 0 then Some([])
    else
      var i := IndexOf(s, ':');
      if i + 1 < |s| && s[i + 1] == ' ' then
        var rest := s[i + 2..];
        var j := IndexOf(rest, '\r');
        if j + 1 < |rest| && rest[j + 1] == '\n' then
          match Parse(rest[j + 2..])
          case Some(fs) => Some([Field(s[..i], rest[..j])] + fs)
          case None => None
        else None
      else None
  }

  lemma IndexOfPrefix(a: string, c: char, b: string)
    requires c !in a
    ensures IndexOf(a + [c] + b, c) == |a|
  {
    var s := a + [c] + b;
    assert s[|a|] == c;
    assert forall j :: 0 <= j < |a| ==> s[j] == a[j];
  }

  /** A written line splits at its first colon into the name and the rest. */
  lemma LineSplitsAtColon(f: Field, tail: string)
    requires ':' !in f.name
    ensures var s := Line(f) + tail;
            && IndexOf(s, ':') == |f.name| && |f.name| + 1 < |s| && s[|f.name| + 1] == ' '
            && s[..|f.name|] == f.name && s[|f.name| + 2..] == f.value + "\r\n" + tail
  {
    var s := Line(f) + tail;
    var rest := f.value + "\r\n" + tail;
    assert s == f.name + [':'] + (" " + rest);
    IndexOfPrefix(f.name, ':', " " + rest);
  }

  /** The rest of a written line splits at its first CR into the value and
      the following lines. */
  lemma ValueSplitsAtCR(v: string, tail: string)
    requires '\r' !in v
    ensures var rest := v + "\r\n" + tail;
            && IndexOf(rest, '\r') == |v| && |v| + 1 < |rest| && rest[|v| + 1] == '\n'
            && rest[..|v|] == v && rest[|v| + 2..] == tail
  {
    var rest := v + "\r\n" + tail;
    assert rest == v + ['\r'] + ("\n" + tail);
    IndexOfPrefix(v, '\r', "\n" + tail);
  }

  /** Reading one line: the name up to the first colon, the value up to the
      first CR, then the rest of the block. */
  lemma ParseLine(f: Field, tail: string)
    requires ':' !in f.name && '\r' !in f.value
    ensures Parse(Line(f) + tail) == match Parse(tail)
                                     case Some(fs) => Some([f] + fs)
                                     case None => None
  {
    LineSplitsAtColon(f, tail);
    ValueSplitsAtCR(f.value, tail);
  }

  /** Nothing is folded, quoted or escaped: when names hold no colon and
      values no CR, the block reads back as exactly the fields written. */
  lemma {:induction false} ParseRender(fs: seq<Field>)
    requires forall k :: 0 <= k < |fs| ==> ':' !in fs[k].name && '\r' !in fs[k].value
    ensures Parse(Render(fs)) == Some(fs)
  {
    if |fs| > 0 {
      ParseRender(fs[1..]);
      ParseLine(fs[0], Render(fs[1..]));
      assert fs == [fs[0]] + fs[1..];
    }
  }

  /** When stored names hold no colon and values no CR, the serialised block
      reads back as exactly the emitted (name, value) pairs. */
  lemma WriteSubsetReadsBack(h: Header, exclude: set<string>)
    requires forall n :: n in h && n != OrderKey ==> ':' !in n && forall k :: 0 <= k < |h[n]| ==> '\r' !in h[n][k]
    ensures Parse(WriteSubset(h, exclude)) == Some(Emitted(h, exclude))
  {
    var fs := Emitted(h, exclude);
    forall k | 0 <= k < |fs|
      ensures ':' !in fs[k].name && '\r' !in fs[k].value
    {
      var n := fs[k].name;
      assert fs[k].value in h[n] by {
        FieldValueStored(fs, k);
      }
    }
    ParseRender(fs);
  }

  /** A field's value is among the values emitted under its name. */
  lemma {:induction false} FieldValueStored(fs: seq<Field>, k: nat)
    requires k < |fs|
    ensures fs[k].value in ValuesOf(fs, fs[k].name)
  {
    if k > 0 {
      FieldValueStored(fs[1..], k - 1);
      assert fs[1..][k - 1] == fs[k];
    }
  }

  /** An iterative formulation of the serialiser: range over the keys in any
      order (each step an arbitrary choice), keep the names that are neither
      excluded nor the order key, sort them by insertion, and write their
      lines. Every iteration order yields the block of `WriteSubset`. */
  method WriteSubsetByIteration(h: Header, exclude: set<string>) returns (out: string)
    ensures out == WriteSubset(h, exclude)
  {
    var order := OrderList(h);
    var unvisited := h.Keys;
    var kvs: seq<string> := [];
    while unvisited != {}
      invariant unvisited <= h.Keys
      invariant forall n :: n in kvs <==> n in Candidates(h, exclude) && n !in unvisited
      decreases |unvisited|
    {
      var k :| k in unvisited;
      if k !in exclude && k != OrderKey {
        kvs := kvs + [k];
      }
      unvisited := unvisited - {k};
    }
    var sorted: seq<string> := [];
    for i := 0 to |kvs|
      invariant SortedBy(order, sorted)
      invariant forall n :: n in sorted <==> n in kvs[..i]
    {
      sorted := Insert(order, kvs[i], sorted);
      assert kvs[..i + 1] == kvs[..i] + [kvs[i]];
    }
    assert kvs[..|kvs|] == kvs;
    EmissionOrderUnique(h, exclude, sorted);
    out := Render(Fields(h, sorted));
  }
}
