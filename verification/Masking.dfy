/** Masking of sensitive keys in log events, down to a fixed nesting depth. */
module Masking {
  import opened Common

  datatype Entry = Entry(key: string, value: Value)

  /** A logged value; keys and entries keep their order. */
  datatype Value =
    | Scalar(text: string)
    | Items(items: seq<Value>)
    | Tuple(items: seq<Value>)
    | Dict(entries: seq<Entry>)

  const MASK := Scalar("***")

  const MAX_DEPTH: nat := 6

  const SENSITIVE_PARTS: seq<string> :=
    ["password", "secret", "token", "authorization", "cookie", "api_key", "apikey"]

  predicate Contains(s: string, part: string) {
    exists i :: 0 <= i <= |s| && part <= s[i..]
  }

  predicate Sensitive(key: string) {
    exists p :: 0 <= p < |SENSITIVE_PARTS| && Contains(Lower(key), SENSITIVE_PARTS[p])
  }

  function MaskValue(v: Value, depth: nat): Value
    decreases MAX_DEPTH - depth
  {
    if depth >= MAX_DEPTH then v
    else match v {
      case Dict(entries) =>
        Dict(seq(|entries|, i requires 0 <= i < |entries| =>
               Entry(entries[i].key,
                     if Sensitive(entries[i].key) then MASK else MaskValue(entries[i].value, depth + 1))))
      case Items(items) => Items(seq(|items|, i requires 0 <= i < |items| => MaskValue(items[i], depth + 1)))
      case Tuple(items) => Items(seq(|items|, i requires 0 <= i < |items| => MaskValue(items[i], depth + 1)))
      case Scalar(_) => v
    }
  }

  /** The log processor: the values of the event start at depth 0. */
  function MaskEvent(event: seq<Entry>): seq<Entry> {
    seq(|event|, i requires 0 <= i < |event| =>
      Entry(event[i].key, if Sensitive(event[i].key) then MASK else MaskValue(event[i].value, 0)))
  }

  // ---------------------------------------------------------------- which keys

  lemma LowerConcat(a: string, b: string)
    ensures Lower(a + b) == Lower(a) + Lower(b)
  {
  }

  lemma LowerSlice(s: string, i: nat, j: nat)
    requires i <= j <= |s|
    ensures Lower(s[i..j]) == Lower(s)[i..j]
  {
  }

  predicate IsPart(part: string) {
    part in {"password", "secret", "token", "authorization", "cookie", "api_key", "apikey"}
  }

  lemma PartsAreListed(part: string)
    ensures IsPart(part) <==> part in SENSITIVE_PARTS
  {
    var s := SENSITIVE_PARTS;
    assert s[0] == "password" && s[1] == "secret" && s[2] == "token" && s[3] == "authorization"
      && s[4] == "cookie" && s[5] == "api_key" && s[6] == "apikey" && |s| == 7;
  }

  /** `key` is `a`, then one of the seven parts in any letter case, then `b`. */
  predicate Splits(key: string, a: string, part: string, b: string) {
    key == a + part + b && IsPart(Lower(part))
  }

  lemma PartMakesSensitive(key: string, a: string, part: string, b: string)
    requires Splits(key, a, part, b)
    ensures Sensitive(key)
  {
    PartsAreListed(Lower(part));
    LowerConcat(a + part, b);
    LowerConcat(a, part);
    var p :| 0 <= p < |SENSITIVE_PARTS| && SENSITIVE_PARTS[p] == Lower(part);
    assert Lower(key)[|a|..] == Lower(part) + Lower(b);
    assert Contains(Lower(key), SENSITIVE_PARTS[p]);
  }

  lemma SensitiveHasPart(key: string) returns (a: string, part: string, b: string)
    requires Sensitive(key)
    ensures Splits(key, a, part, b)
  {
    var p :| 0 <= p < |SENSITIVE_PARTS| && Contains(Lower(key), SENSITIVE_PARTS[p]);
    var word := SENSITIVE_PARTS[p];
    PartsAreListed(word);
    a, part, b := PartStands(key, word);
  }

  lemma PartStands(key: string, word: string) returns (a: string, part: string, b: string)
    requires Contains(Lower(key), word)
    ensures key == a + part + b && Lower(part) == word
  {
    var i :| 0 <= i <= |Lower(key)| && word <= Lower(key)[i..];
    var j := i + |word|;
    a, part, b := key[..i], key[i..j], key[j..];
    LowerSlice(key, i, j);
    assert Lower(key)[i..j] == Lower(key)[i..][..|word|];
  }

  /** A key is sensitive exactly when one of the seven parts stands in it, anywhere and
      in any letter case. */
  lemma SensitiveIff(key: string)
    ensures Sensitive(key) <==> exists a, part, b :: Splits(key, a, part, b)
  {
    if Sensitive(key) {
      var a, part, b := SensitiveHasPart(key);
    }
    if exists a, part, b :: Splits(key, a, part, b) {
      var a, part, b :| Splits(key, a, part, b);
      PartMakesSensitive(key, a, part, b);
    }
  }

  /** The masked event has the same keys in the same order; an entry is replaced by the
      mask if and only if a part stands in its key, or it is the mask already. */
  lemma EventEntries(event: seq<Entry>, i: nat)
    requires i < |event|
    ensures |MaskEvent(event)| == |event| && MaskEvent(event)[i].key == event[i].key
    ensures (exists a, part, b :: Splits(event[i].key, a, part, b)) ==> MaskEvent(event)[i].value == Scalar("***")
    ensures MaskEvent(event)[i].value == Scalar("***") ==>
              (exists a, part, b :: Splits(event[i].key, a, part, b)) || event[i].value == Scalar("***")
  {
    SensitiveIff(event[i].key);
  }

  // ---------------------------------------------------------------- twice is once

  lemma {:induction false} MaskValueTwice(v: Value, depth: nat)
    ensures MaskValue(MaskValue(v, depth), depth) == MaskValue(v, depth)
    decreases MAX_DEPTH - depth
  {
    if depth < MAX_DEPTH {
      match v
      case Dict(entries) =>
        forall i | 0 <= i < |entries| { MaskValueTwice(entries[i].value, depth + 1); }
        assert MaskValue(MaskValue(v, depth), depth).entries == MaskValue(v, depth).entries;
      case Items(items) =>
        forall i | 0 <= i < |items| { MaskValueTwice(items[i], depth + 1); }
        assert MaskValue(MaskValue(v, depth), depth).items == MaskValue(v, depth).items;
      case Tuple(items) =>
        forall i | 0 <= i < |items| { MaskValueTwice(items[i], depth + 1); }
        assert MaskValue(MaskValue(v, depth), depth).items == MaskValue(v, depth).items;
      case Scalar(_) =>
    }
  }

  lemma MaskEventTwice(event: seq<Entry>)
    ensures MaskEvent(MaskEvent(event)) == MaskEvent(event)
  {
    forall i | 0 <= i < |event| { MaskValueTwice(event[i].value, 0); }
  }

  // ---------------------------------------------------------------- where values go

  function Size(v: Value): nat {
    match v
    case Dict(entries) => |entries|
    case Items(items) => |items|
    case Tuple(items) => |items|
    case Scalar(_) => 0
  }

  function Child(v: Value, i: nat): Value
    requires i < Size(v)
  {
    match v
    case Dict(entries) => entries[i].value
    case Items(items) => items[i]
    case Tuple(items) => items[i]
  }

  /** The value at the end of a path of positions, if the path exists. */
  function At(v: Value, path: seq<nat>): Option<Value> {
    if path == [] then Some(v)
    else if path[0] < Size(v) then At(Child(v, path[0]), path[1..])
    else None
  }

  /** The path enters no sensitive entry of a dict visited above the cut-off. */
  predicate Plain(v: Value, path: seq<nat>, depth: nat) {
    path == [] || (
      && path[0] < Size(v)
      && !(depth < MAX_DEPTH && v.Dict? && Sensitive(v.entries[path[0]].key))
      && Plain(Child(v, path[0]), path[1..], depth + 1))
  }

  /** Along a plain path the same path leads to the same value, itself masked from
      its own depth on: scalars are untouched, tuples above the cut-off are lists, and
      from the cut-off on nothing changes at all. */
  lemma {:induction false} PlainPathsKept(v: Value, path: seq<nat>, depth: nat)
    requires Plain(v, path, depth)
    ensures At(v, path).Some?
    ensures At(MaskValue(v, depth), path) == Some(MaskValue(At(v, path).value, depth + |path|))
    decreases |path|
  {
    if path == [] {
    } else {
      PlainPathsKept(Child(v, path[0]), path[1..], depth + 1);
      if depth >= MAX_DEPTH {
        assert MaskValue(Child(v, path[0]), depth + 1) == Child(v, path[0]);
      }
    }
  }

  /** What a value on a plain path turns into: from depth 6 on itself; above, a scalar
      stays, a dict keeps its keys in order, and a list or tuple becomes a list of the
      same length. */
  lemma PlainPathsShape(v: Value, path: seq<nat>, depth: nat)
    requires Plain(v, path, depth)
    ensures At(v, path).Some? && At(MaskValue(v, depth), path).Some?
    ensures
      var before, later := At(v, path).value, At(MaskValue(v, depth), path).value;
      if 6 <= depth + |path| then later == before
      else match before {
        case Scalar(_) => later == before
        case Dict(entries) =>
          && later.Dict? && |later.entries| == |entries|
          && forall i :: 0 <= i < |entries| ==> later.entries[i].key == entries[i].key
        case Items(items) => later.Items? && |later.items| == |items|
        case Tuple(items) => later.Items? && |later.items| == |items|
      }
  {
    PlainPathsKept(v, path, depth);
  }

  /** A sensitive entry of any dict reached by a plain path above the cut-off holds
      the mask and nothing of its value. */
  lemma {:induction false} SensitiveEntriesMasked(v: Value, path: seq<nat>, i: nat, depth: nat)
    requires Plain(v, path, depth) && At(v, path).Some? && At(v, path).value.Dict?
    requires i < |At(v, path).value.entries| && depth + |path| < MAX_DEPTH
    requires Sensitive(At(v, path).value.entries[i].key)
    ensures At(MaskValue(v, depth), path + [i]) == Some(MASK)
    decreases |path|
  {
    if path == [] {
      assert (path + [i])[1..] == [];
    } else {
      SensitiveEntriesMasked(Child(v, path[0]), path[1..], i, depth + 1);
      assert (path + [i])[1..] == path[1..] + [i];
    }
  }

  // ---------------------------------------------------------------- is anything left?

  /** Every sensitive entry at every depth holds the mask. */
  predicate AllMasked(v: Value) {
    match v
    case Dict(entries) =>
      forall i :: 0 <= i < |entries| ==>
        if Sensitive(entries[i].key) then entries[i].value == MASK else AllMasked(entries[i].value)
    case Items(items) => forall i :: 0 <= i < |items| ==> AllMasked(items[i])
    case Tuple(items) => forall i :: 0 <= i < |items| ==> AllMasked(items[i])
    case Scalar(_) => true
  }

  /** What the cut-off leaves unseen holds no unmasked sensitive entry. */
  predicate CleanBelowCutOff(v: Value, depth: nat)
    decreases MAX_DEPTH - depth
  {
    if depth >= MAX_DEPTH then AllMasked(v)
    else forall i :: 0 <= i < Size(v) ==>
      (v.Dict? && Sensitive(v.entries[i].key)) || CleanBelowCutOff(Child(v, i), depth + 1)
  }

  /** The masked value is free of secrets exactly when nothing below the cut-off,
      outside masked entries, holds one. */
  lemma {:induction false} AllMaskedIff(v: Value, depth: nat)
    ensures AllMasked(MaskValue(v, depth)) <==> CleanBelowCutOff(v, depth)
    decreases MAX_DEPTH - depth
  {
    if depth < MAX_DEPTH {
      forall i | 0 <= i < Size(v)
        ensures AllMasked(MaskValue(Child(v, i), depth + 1)) <==> CleanBelowCutOff(Child(v, i), depth + 1)
      {
        AllMaskedIff(Child(v, i), depth + 1);
      }
      var m := MaskValue(v, depth);
      assert Size(m) == Size(v);
      match v {
        case Dict(entries) =>
          assert forall i :: 0 <= i < |entries| ==>
            m.entries[i].key == entries[i].key &&
            m.entries[i].value == if Sensitive(entries[i].key) then MASK else MaskValue(Child(v, i), depth + 1);
        case Items(items) =>
          assert forall i :: 0 <= i < |items| ==> m.items[i] == MaskValue(Child(v, i), depth + 1);
        case Tuple(items) =>
          assert forall i :: 0 <= i < |items| ==> m.items[i] == MaskValue(Child(v, i), depth + 1);
        case Scalar(_) =>
      }
    }
  }

  /** The same for a whole event. */
  lemma EventAllMaskedIff(event: seq<Entry>)
    ensures AllMasked(Dict(MaskEvent(event))) <==>
            forall i :: 0 <= i < |event| ==> Sensitive(event[i].key) || CleanBelowCutOff(event[i].value, 0)
  {
    var m := MaskEvent(event);
    forall i | 0 <= i < |event|
      ensures AllMasked(MaskValue(event[i].value, 0)) <==> CleanBelowCutOff(event[i].value, 0)
    {
      AllMaskedIff(event[i].value, 0);
    }
    assert forall i :: 0 <= i < |event| ==>
      m[i].key == event[i].key && m[i].value == if Sensitive(event[i].key) then MASK else MaskValue(event[i].value, 0);
  }

  /** `v` inside `n` one-element lists. */
  function Wrapped(v: Value, n: nat): Value {
    if n == 0 then v else Items([Wrapped(v, n - 1)])
  }

  lemma {:induction false} WrappedAtCutOff(v: Value, n: nat)
    requires n <= MAX_DEPTH
    ensures CleanBelowCutOff(Wrapped(v, n), MAX_DEPTH - n) <==> AllMasked(v)
    decreases n
  {
    if n == 0 {
    } else {
      WrappedAtCutOff(v, n - 1);
      assert Child(Wrapped(v, n), 0) == Wrapped(v, n - 1);
    }
  }

  /** A password six levels down is logged in the clear. */
  lemma DeepPasswordIsLogged(text: string)
    requires text != "***"
    ensures
      var deep := Wrapped(Dict([Entry("password", Scalar(text))]), MAX_DEPTH);
      !AllMasked(Dict(MaskEvent([Entry("data", deep)])))
  {
    var secret := Dict([Entry("password", Scalar(text))]);
    var event := [Entry("data", Wrapped(secret, MAX_DEPTH))];
    PasswordIsSensitive();
    DataIsNot();
    assert !AllMasked(secret) by {
      assert Sensitive(secret.entries[0].key) && secret.entries[0].value != MASK;
    }
    WrappedAtCutOff(secret, MAX_DEPTH);
    EventAllMaskedIff(event);
    assert !Sensitive(event[0].key) && !CleanBelowCutOff(event[0].value, 0);
  }

  lemma PasswordIsSensitive()
    ensures Sensitive("password")
  {
    assert Lower("password") == "password";
    assert SENSITIVE_PARTS[0] <= Lower("password")[0..];
    assert Contains(Lower("password"), SENSITIVE_PARTS[0]);
  }

  lemma DataIsNot()
    ensures !Sensitive("data")
  {
    assert |Lower("data")| == 4;
    assert forall p :: 0 <= p < |SENSITIVE_PARTS| ==> |SENSITIVE_PARTS[p]| > 4;
  }
}
