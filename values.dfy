/** The variable tree of `parseEvalResult` and `variablesRequest`: a value decoded from
    ocamldebug's `print` output, its one-line rendering, the children its expander
    produces, the counts a variable advertises, and the `named`/`indexed` filters. */
module Values {
  import opened Text

  /** The tagged value the value grammar produces. */
  datatype Value =
    | Plain(text: string)
    | Con(con: string, arg: Value)
    | Tuple(items: seq<Value>)
    | Array(items: seq<Value>)
    | List(items: seq<Value>)
    | Record(fields: seq<Field>)

  datatype Field = Field(name: string, value: Value)

  /** `repr`: scalars as their text, a constructor as its tag and its argument, a tuple in
      parentheses, and a fixed placeholder for arrays, lists and records. */
  function Repr(v: Value): string
  {
    match v
    case Plain(text) => text
    case Con(con, arg) => con + " " + Repr(arg)
    case Tuple(items) => "(" + Join(seq(|items|, i requires 0 <= i < |items| => Repr(items[i])), ", ") + ")"
    case Array(_) => "<array>"
    case List(_) => "<list>"
    case Record(_) => "<record>"
  }

  /** The same value with the contents of every array, list and record dropped: the part
      of a value that its rendering can show. */
  function Shape(v: Value): Value
  {
    match v
    case Plain(_) => v
    case Con(con, arg) => Con(con, Shape(arg))
    case Tuple(items) => Tuple(seq(|items|, i requires 0 <= i < |items| => Shape(items[i])))
    case Array(_) => Array([])
    case List(_) => List([])
    case Record(_) => Record([])
  }

  /** The rendering never looks inside an array, a list or a record, so the text of a
      variable stays short however large those are. */
  lemma {:induction false} ReprIgnoresContents(v: Value)
    ensures Repr(Shape(v)) == Repr(v)
  {
    match v
    case Plain(_) =>
    case Con(con, arg) =>
      ReprIgnoresContents(arg);
    case Tuple(items) =>
      var shaped := seq(|items|, i requires 0 <= i < |items| => Shape(items[i]));
      forall i | 0 <= i < |items|
        ensures Repr(shaped[i]) == Repr(items[i])
      {
        ReprIgnoresContents(items[i]);
      }
      assert seq(|shaped|, i requires 0 <= i < |shaped| => Repr(shaped[i])) ==
             seq(|items|, i requires 0 <= i < |items| => Repr(items[i]));
    case Array(_) =>
    case List(_) =>
    case Record(_) =>
  }

  /** Position `i` of a tuple, `%1`, `%2`, ... */
  function TupleName(i: nat): (name: string)
    ensures !IsDigits(name) && name != []
  {
    var name := "%" + NatToString(i + 1);
    assert !IsDigit(name[0]);
    name
  }

  /** The children the expander of a value makes, as (name, value) pairs: the argument of
      a constructor as `0`, the components of a tuple as `%1`, `%2`, ..., the elements of an
      array or list as `0`, `1`, ..., and the fields of a record by their names. */
  function Children(v: Value): seq<(string, Value)>
    requires !v.Plain?
  {
    match v
    case Con(_, arg) => [("0", arg)]
    case Tuple(items) => seq(|items|, i requires 0 <= i < |items| => (TupleName(i), items[i]))
    case Array(items) => Elements(items)
    case List(items) => Elements(items)
    case Record(fields) => seq(|fields|, i requires 0 <= i < |fields| => (fields[i].name, fields[i].value))
  }

  function Elements(items: seq<Value>): seq<(string, Value)>
  {
    seq(|items|, i requires 0 <= i < |items| => (NatToString(i), items[i]))
  }

  /** The number of children a variable advertises as `indexedVariables`. */
  function IndexedCount(v: Value): nat
  {
    match v
    case Plain(_) => 0
    case Con(_, _) => 1
    case Tuple(_) => 0
    case Array(items) => |items|
    case List(items) => |items|
    case Record(_) => 0
  }

  /** The number of children a variable advertises as `namedVariables`. */
  function NamedCount(v: Value): nat
  {
    match v
    case Plain(_) => 0
    case Con(_, _) => 0
    case Tuple(items) => |items|
    case Array(_) => 0
    case List(_) => 0
    case Record(fields) => |fields|
  }

  /** A variable as the front end receives it: `reference` 0 means it has no children. */
  datatype Variable = Variable(name: string, value: string, reference: nat, indexed: nat, named: nat)

  /** `createVariable` given the handle the handle table gives out for a value with children. */
  function CreateVariable(name: string, v: Value, handle: nat): (x: Variable)
    requires handle > 0
    ensures x.name == name && x.value == Repr(v)
    ensures x.reference != 0 <==> !v.Plain?
    ensures x.indexed == IndexedCount(v) && x.named == NamedCount(v)
  {
    if v.Plain? then Variable(name, Repr(v), 0, 0, 0)
    else Variable(name, Repr(v), handle, IndexedCount(v), NamedCount(v))
  }

  /** How many of the children have children of their own, and so take a handle. */
  function HandlesUsed(cs: seq<(string, Value)>): (n: nat)
    ensures n <= |cs|
  {
    if cs == [] then 0 else HandlesUsed(cs[..|cs| - 1]) + (if Last(cs).1.Plain? then 0 else 1)
  }

  /** The variables the expander makes for `cs`, in order, the handle table giving out
      `h`, `h + 1`, ... to the children that have children of their own. */
  function ChildVariables(cs: seq<(string, Value)>, h: nat): (xs: seq<Variable>)
    requires h > 0
    ensures |xs| == |cs|
  {
    if cs == [] then []
    else
      var front := cs[..|cs| - 1];
      ChildVariables(front, h) + [CreateVariable(Last(cs).0, Last(cs).1, h + HandlesUsed(front))]
  }

  /** One more child: its variable is appended, with the next handle when it needs one. */
  lemma ChildVariablesNext(cs: seq<(string, Value)>, i: nat, h: nat)
    requires h > 0 && i < |cs|
    ensures ChildVariables(cs[..i + 1], h) ==
            ChildVariables(cs[..i], h) + [CreateVariable(cs[i].0, cs[i].1, h + HandlesUsed(cs[..i]))]
    ensures HandlesUsed(cs[..i + 1]) == HandlesUsed(cs[..i]) + (if cs[i].1.Plain? then 0 else 1)
  {
    var front := cs[..i + 1];
    assert front[..i] == cs[..i] && Last(front) == cs[i];
  }

  /** The variables carry the children's names in order, and distinct children with
      children of their own get distinct handles, counted up from `h`. */
  lemma {:induction false} ChildVariablesHandles(cs: seq<(string, Value)>, h: nat)
    requires h > 0
    ensures forall k :: 0 <= k < |cs| ==> ChildVariables(cs, h)[k].name == cs[k].0
    ensures forall k :: 0 <= k < |cs| && ChildVariables(cs, h)[k].reference != 0 ==>
              h <= ChildVariables(cs, h)[k].reference < h + HandlesUsed(cs)
    ensures forall j, k :: 0 <= j < k < |cs| && ChildVariables(cs, h)[j].reference != 0 ==>
              ChildVariables(cs, h)[j].reference != ChildVariables(cs, h)[k].reference
  {
    if cs != [] {
      var front := cs[..|cs| - 1];
      ChildVariablesHandles(front, h);
      var xs := ChildVariables(cs, h);
      assert xs[..|front|] == ChildVariables(front, h);
      forall k | 0 <= k < |front|
        ensures xs[k] == ChildVariables(front, h)[k] && cs[k] == front[k]
      {
      }
    }
  }

  /** The variable an evaluation shows: a value with children of its own, other than a
      constructor, shows its type in place of its rendering. */
  function TopVariable(name: string, v: Value, typ: string, handle: nat): (x: Variable)
    requires handle > 0
    ensures x.value == (if v.Plain? || v.Con? then Repr(v) else typ)
    ensures x == CreateVariable(name, v, handle).(value := x.value)
  {
    var x := CreateVariable(name, v, handle);
    if v.Plain? || v.Con? then x else x.(value := typ)
  }

  // ---------------------------------------------------------------------------
  // Filters of `variablesRequest`

  /** The `filter` argument, with `start` and `count` as given (absent when undefined). */
  datatype Filter = Both | Named | Indexed(start: Option<int>, count: Option<int>)

  /** Whether a child named `name` passes the filter. An indexed filter without a count,
      or with a count of 0, keeps every index; a missing start is 0. */
  predicate Keep(f: Filter, name: string)
  {
    match f
    case Both => true
    case Named => !IsDigits(name)
    case Indexed(start, count) =>
      IsDigits(name) &&
      (count.None? || count.value == 0 ||
       var index := ParseNat(name);
       var from := if start.Some? then start.value else 0;
       from <= index < from + count.value)
  }

  /** `variables.filter(...)`: the children that pass, in their order. */
  function Filtered<T(!new)>(xs: seq<T>, name: T -> string, f: Filter): (r: seq<T>)
    ensures |r| <= |xs|
  {
    if xs == [] then []
    else (if Keep(f, name(xs[0])) then [xs[0]] else []) + Filtered(xs[1..], name, f)
  }

  /** The filter keeps exactly the children that pass. */
  lemma {:induction false} FilteredMembers<T(!new)>(xs: seq<T>, name: T -> string, f: Filter)
    ensures forall x :: x in Filtered(xs, name, f) <==> x in xs && Keep(f, name(x))
  {
    if xs != [] {
      FilteredMembers(xs[1..], name, f);
      assert xs == [xs[0]] + xs[1..];
    }
  }

  /** Each kept element stands at some position of the input and passes the filter. */
  lemma FilteredFrom<T(!new)>(xs: seq<T>, name: T -> string, f: Filter, k: nat)
    requires k < |Filtered(xs, name, f)|
    ensures exists j :: 0 <= j < |xs| && xs[j] == Filtered(xs, name, f)[k] && Keep(f, name(xs[j]))
  {
    FilteredMembers(xs, name, f);
    assert Filtered(xs, name, f)[k] in Filtered(xs, name, f);
  }

  /** Each element that passes the filter is kept. */
  lemma FilteredKeeps<T(!new)>(xs: seq<T>, name: T -> string, f: Filter, j: nat)
    requires j < |xs| && Keep(f, name(xs[j]))
    ensures exists k :: 0 <= k < |Filtered(xs, name, f)| && Filtered(xs, name, f)[k] == xs[j]
  {
    FilteredMembers(xs, name, f);
    assert xs[j] in xs;
  }

  function ChildName(c: (string, Value)): string
  {
    c.0
  }

  lemma {:induction false} FilteredAll<T(!new)>(xs: seq<T>, name: T -> string, f: Filter)
    requires forall i :: 0 <= i < |xs| ==> Keep(f, name(xs[i]))
    ensures Filtered(xs, name, f) == xs
  {
    if xs != [] {
      FilteredAll(xs[1..], name, f);
    }
  }

  lemma {:induction false} FilteredNone<T(!new)>(xs: seq<T>, name: T -> string, f: Filter)
    requires forall i :: 0 <= i < |xs| ==> !Keep(f, name(xs[i]))
    ensures Filtered(xs, name, f) == []
  {
    if xs != [] {
      FilteredNone(xs[1..], name, f);
    }
  }

  /** The counts a variable advertises are the numbers of children each filter gives: a
      constructor has one indexed child, a tuple or a record one named child per
      component or field, an array or a list one indexed child per element. */
  lemma ChildCounts(v: Value)
    requires !v.Plain?
    requires v.Record? ==> forall i :: 0 <= i < |v.fields| ==> !IsDigits(v.fields[i].name)
    ensures |Filtered(Children(v), ChildName, Named)| == NamedCount(v)
    ensures |Filtered(Children(v), ChildName, Indexed(None, None))| == IndexedCount(v)
  {
    var cs := Children(v);
    if v.Con? {
      assert IsDigits(cs[0].0);
      FilteredNone(cs, ChildName, Named);
      FilteredAll(cs, ChildName, Indexed(None, None));
    } else if v.Tuple? || v.Record? {
      FilteredAll(cs, ChildName, Named);
      FilteredNone(cs, ChildName, Indexed(None, None));
    } else {
      FilteredNone(cs, ChildName, Named);
      FilteredAll(cs, ChildName, Indexed(None, None));
    }
  }

  function Clamp(i: int, n: nat): (c: nat)
    ensures c <= n
  {
    if i < 0 then 0 else if i > n then n else i
  }

  lemma KeepIndex(k: nat, start: int, count: int)
    requires count > 0
    ensures Keep(Indexed(Some(start), Some(count)), NatToString(k)) <==> start <= k < start + count
  {
  }

  /** How the window over a sequence relates to the window over its tail. */
  lemma WindowStep<T>(xs: seq<T>, k: int, start: int, count: int)
    requires |xs| >= 1 && count > 0
    ensures Clamp(start - k, |xs|) <= Clamp(start + count - k, |xs|)
    ensures start <= k < start + count ==>
              [xs[0]] + xs[1..][Clamp(start - k - 1, |xs| - 1)..Clamp(start + count - k - 1, |xs| - 1)] ==
              xs[Clamp(start - k, |xs|)..Clamp(start + count - k, |xs|)]
    ensures !(start <= k < start + count) ==>
              xs[1..][Clamp(start - k - 1, |xs| - 1)..Clamp(start + count - k - 1, |xs| - 1)] ==
              xs[Clamp(start - k, |xs|)..Clamp(start + count - k, |xs|)]
  {
    var lo, hi := Clamp(start - k, |xs|), Clamp(start + count - k, |xs|);
    if start <= k < start + count {
      assert xs[1..][0..hi - 1] == xs[1..hi];
    } else if k < start {
      assert xs[1..][lo - 1..hi - 1] == xs[lo..hi];
    }
  }

  /** Children named by consecutive indices from `k` on, filtered by a window, are the
      slice of them that the window covers. */
  lemma {:induction false} WindowFrom(xs: seq<(string, Value)>, k: nat, start: int, count: int)
    requires count > 0
    requires forall i :: 0 <= i < |xs| ==> xs[i].0 == NatToString(k + i)
    ensures Clamp(start - k, |xs|) <= Clamp(start + count - k, |xs|)
    ensures Filtered(xs, ChildName, Indexed(Some(start), Some(count))) ==
              xs[Clamp(start - k, |xs|)..Clamp(start + count - k, |xs|)]
  {
    if xs != [] {
      var f := Indexed(Some(start), Some(count));
      var rest := xs[1..];
      assert Keep(f, xs[0].0) <==> start <= k < start + count by {
        assert xs[0].0 == NatToString(k + 0);
        KeepIndex(k, start, count);
      }
      assert Filtered(rest, ChildName, f) == rest[Clamp(start - (k + 1), |rest|)..Clamp(start + count - (k + 1), |rest|)] by {
        forall i | 0 <= i < |rest| ensures rest[i].0 == NatToString(k + 1 + i) {
          assert rest[i] == xs[i + 1];
        }
        WindowFrom(rest, k + 1, start, count);
      }
      assert Filtered(xs, ChildName, f) == (if Keep(f, xs[0].0) then [xs[0]] else []) + Filtered(rest, ChildName, f);
      WindowStep(xs, k, start, count);
    }
  }

  /** With a positive count, the indexed filter on the children of an array or a list
      gives exactly the elements from `start` (0 when absent) up to `start + count`. */
  lemma IndexedWindow(v: Value, start: Option<int>, count: int)
    requires v.Array? || v.List?
    requires count > 0
    ensures var from := if start.Some? then start.value else 0;
            Filtered(Children(v), ChildName, Indexed(start, Some(count))) ==
              Children(v)[Clamp(from, |v.items|)..Clamp(from + count, |v.items|)]
  {
    assert Children(v) == Elements(v.items);
    ElementsWindow(v.items, start, count);
  }

  lemma ElementsWindow(items: seq<Value>, start: Option<int>, count: int)
    requires count > 0
    ensures var from := if start.Some? then start.value else 0;
            Filtered(Elements(items), ChildName, Indexed(start, Some(count))) ==
              Elements(items)[Clamp(from, |items|)..Clamp(from + count, |items|)]
  {
    var from := if start.Some? then start.value else 0;
    var cs := Elements(items);
    assert forall i :: 0 <= i < |cs| ==> cs[i].0 == NatToString(0 + i);
    WindowFrom(cs, 0, from, count);
    SameKeep(cs, start, from, count);
  }

  lemma {:induction false} SameKeep(cs: seq<(string, Value)>, start: Option<int>, from: int, count: int)
    requires from == if start.Some? then start.value else 0
    ensures Filtered(cs, ChildName, Indexed(start, Some(count))) == Filtered(cs, ChildName, Indexed(Some(from), Some(count)))
  {
    if cs != [] {
      SameKeep(cs[1..], start, from, count);
    }
  }

  /** Children named `0`, `1`, `2` and `x`: the named filter keeps `x` alone, and the
      indexed filter from 1 with a count of 1 keeps `1` alone. */
  lemma FilterExample()
    ensures Filtered(["0", "1", "2", "x"], (s: string) => s, Named) == ["x"]
    ensures Filtered(["0", "1", "2", "x"], (s: string) => s, Indexed(Some(1), Some(1))) == ["1"]
  {
    var names := ["0", "1", "2", "x"];
    assert IsDigits(names[0]) && IsDigits(names[1]) && IsDigits(names[2]);
    assert !IsDigit(names[3][0]);
    assert ParseNat(names[1]) == 1;
    assert ParseNat(names[0]) == 0 && ParseNat(names[2]) == 2;
    assert names[1..][1..][1..][1..] == [];
  }
}
