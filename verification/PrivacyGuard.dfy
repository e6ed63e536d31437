/** The recursive guard that refuses payloads with per-user data before they are stored. */
module PrivacyGuard {
  import opened Wrappers

  datatype Json = Null | Bool(b: bool) | Num(n: real) | Str(s: string) | Arr(items: seq<Json>) | Obj(fields: seq<Field>)

  datatype Field = Field(key: string, value: Json)

  /** The text patterns: an address, a forbidden key, and the keys exempt for this kind of payload. */
  datatype Patterns = Patterns(hasAddress: string -> bool, isForbidden: string -> bool, isExempt: string -> bool)

  const MAX_PAYLOAD_DEPTH: nat := 32
  const ALLOWED_KEY := "NO_VALID_PAYOUT_DESTINATION"

  datatype Violation = TooDeep | AddressInValue | AddressInKey | ForbiddenKey

  function KeyViolation(p: Patterns, key: string): Option<Violation> {
    if p.hasAddress(key) then Some(AddressInKey)
    else if !p.isExempt(key) && key != ALLOWED_KEY && p.isForbidden(key) then Some(ForbiddenKey)
    else None
  }

  /** The first violation, in reading order. */
  function FindViolation(p: Patterns, v: Json, depth: nat): Option<Violation>
    requires depth <= MAX_PAYLOAD_DEPTH + 1
    decreases MAX_PAYLOAD_DEPTH + 1 - depth, 1, 0
  {
    if depth > MAX_PAYLOAD_DEPTH then Some(TooDeep)
    else
      match v
      case Str(s) => if p.hasAddress(s) then Some(AddressInValue) else None
      case Arr(items) => FindInItems(p, items, depth)
      case Obj(fields) => FindInFields(p, fields, depth)
      case _ => None
  }

  function FindInItems(p: Patterns, items: seq<Json>, depth: nat): Option<Violation>
    requires depth <= MAX_PAYLOAD_DEPTH
    decreases MAX_PAYLOAD_DEPTH + 1 - depth, 0, |items|
  {
    if items == [] then None
    else
      var first := FindViolation(p, items[0], depth + 1);
      if first.Some? then first else FindInItems(p, items[1..], depth)
  }

  function FindInFields(p: Patterns, fields: seq<Field>, depth: nat): Option<Violation>
    requires depth <= MAX_PAYLOAD_DEPTH
    decreases MAX_PAYLOAD_DEPTH + 1 - depth, 0, |fields|
  {
    if fields == [] then None
    else
      var key := KeyViolation(p, fields[0].key);
      if key.Some? then key
      else
        var child := FindViolation(p, fields[0].value, depth + 1);
        if child.Some? then child else FindInFields(p, fields[1..], depth)
  }

  // ---- what a clean payload is ----

  /** The value reached by a path of positions, if the path exists. */
  function At(v: Json, path: seq<nat>): Option<Json>
    decreases |path|
  {
    if path == [] then Some(v)
    else if v.Arr? && path[0] < |v.items| then At(v.items[path[0]], path[1..])
    else if v.Obj? && path[0] < |v.fields| then At(v.fields[path[0]].value, path[1..])
    else None
  }

  /** A key that holds an address. */
  predicate IsAddressKey(p: Patterns, key: string) {
    p.hasAddress(key)
  }

  /** A forbidden key, unless it is exempt for this payload or the one that only counts. */
  predicate IsBadKey(p: Patterns, key: string) {
    p.isForbidden(key) && !p.isExempt(key) && key != "NO_VALID_PAYOUT_DESTINATION"
  }

  /** A value that violates nothing by itself. */
  ghost predicate NodeOk(p: Patterns, v: Json) {
    && (v.Str? ==> !p.hasAddress(v.s))
    && (v.Obj? ==> forall i :: 0 <= i < |v.fields| ==>
                     !IsAddressKey(p, v.fields[i].key) && !IsBadKey(p, v.fields[i].key))
  }

  /** If the path exists, it is not too long and ends at an inoffensive value. */
  ghost predicate PathOk(p: Patterns, v: Json, depth: nat, path: seq<nat>) {
    At(v, path).Some? ==> depth + |path| <= 32 && NodeOk(p, At(v, path).value)
  }

  ghost predicate CleanFrom(p: Patterns, v: Json, depth: nat) {
    forall path :: PathOk(p, v, depth, path)
  }

  ghost predicate Clean(p: Patterns, v: Json) {
    CleanFrom(p, v, 0)
  }

  lemma {:induction false} ItemsExactly(p: Patterns, items: seq<Json>, depth: nat)
    requires depth <= MAX_PAYLOAD_DEPTH
    ensures FindInItems(p, items, depth).None? <==>
            forall i :: 0 <= i < |items| ==> FindViolation(p, items[i], depth + 1).None?
  {
    if items != [] {
      ItemsExactly(p, items[1..], depth);
      assert forall i :: 0 < i < |items| ==> items[i] == items[1..][i - 1];
    }
  }

  lemma {:induction false} FieldsExactly(p: Patterns, fields: seq<Field>, depth: nat)
    requires depth <= MAX_PAYLOAD_DEPTH
    ensures FindInFields(p, fields, depth).None? <==>
            forall i :: 0 <= i < |fields| ==>
              KeyViolation(p, fields[i].key).None? && FindViolation(p, fields[i].value, depth + 1).None?
  {
    if fields != [] {
      FieldsExactly(p, fields[1..], depth);
      assert forall i :: 0 < i < |fields| ==> fields[i] == fields[1..][i - 1];
    }
  }

  /** The children of a value, by position. */
  function Children(v: Json): seq<Json> {
    match v
    case Arr(items) => items
    case Obj(fields) => seq(|fields|, i requires 0 <= i < |fields| => fields[i].value)
    case _ => []
  }

  lemma AtChild(v: Json, path: seq<nat>)
    requires path != []
    ensures At(v, path) == if path[0] < |Children(v)| then At(Children(v)[path[0]], path[1..]) else None
  {
  }

  /** Clean here and clean at every child. */
  ghost predicate CleanChildren(p: Patterns, v: Json, depth: nat) {
    && depth <= MAX_PAYLOAD_DEPTH && NodeOk(p, v)
    && forall i :: 0 <= i < |Children(v)| ==> CleanFrom(p, Children(v)[i], depth + 1)
  }

  lemma CleanReachesChildren(p: Patterns, v: Json, depth: nat, i: nat)
    requires CleanFrom(p, v, depth) && i < |Children(v)|
    ensures CleanFrom(p, Children(v)[i], depth + 1)
  {
    var child, deeper := Children(v)[i], depth + 1;
    forall path: seq<nat>
      ensures PathOk(p, child, deeper, path)
    {
      var longer := [i] + path;
      assert longer[1..] == path && PathOk(p, v, depth, longer);
      AtChild(v, longer);
    }
  }

  lemma ChildrenMakeClean(p: Patterns, v: Json, depth: nat, path: seq<nat>)
    requires CleanChildren(p, v, depth)
    ensures PathOk(p, v, depth, path)
  {
    if path != [] {
      AtChild(v, path);
      if path[0] < |Children(v)| {
        assert CleanFrom(p, Children(v)[path[0]], depth + 1);
        assert PathOk(p, Children(v)[path[0]], depth + 1, path[1..]);
      }
    }
  }

  lemma CleanFromExactly(p: Patterns, v: Json, depth: nat)
    ensures CleanFrom(p, v, depth) <==> CleanChildren(p, v, depth)
  {
    if CleanFrom(p, v, depth) {
      assert PathOk(p, v, depth, []);
      forall i | 0 <= i < |Children(v)|
        ensures CleanFrom(p, Children(v)[i], depth + 1)
      {
        CleanReachesChildren(p, v, depth, i);
      }
    }
    if CleanChildren(p, v, depth) {
      forall path: seq<nat>
        ensures PathOk(p, v, depth, path)
      {
        ChildrenMakeClean(p, v, depth, path);
      }
    }
  }

  /** Nothing wrong here, and nothing found at any child. */
  ghost predicate FindsNothing(p: Patterns, v: Json, depth: nat)
    requires depth <= MAX_PAYLOAD_DEPTH
  {
    && NodeOk(p, v)
    && forall i :: 0 <= i < |Children(v)| ==> FindViolation(p, Children(v)[i], depth + 1).None?
  }

  lemma FindExactly(p: Patterns, v: Json, depth: nat)
    requires depth <= MAX_PAYLOAD_DEPTH
    ensures FindViolation(p, v, depth).None? <==> FindsNothing(p, v, depth)
  {
    match v {
      case Arr(items) =>
        ItemsExactly(p, items, depth);
        assert Children(v) == items;
      case Obj(fields) =>
        FieldsExactly(p, fields, depth);
        assert forall i :: 0 <= i < |fields| ==> Children(v)[i] == fields[i].value;
      case _ =>
    }
  }

  /** The guard agrees with the paths at every child. */
  ghost predicate Agree(p: Patterns, children: seq<Json>, depth: nat)
    requires depth <= MAX_PAYLOAD_DEPTH + 1
  {
    forall i :: 0 <= i < |children| ==>
      (FindViolation(p, children[i], depth).None? <==> CleanFrom(p, children[i], depth))
  }

  lemma AgreeingChildren(p: Patterns, v: Json, depth: nat)
    requires depth <= MAX_PAYLOAD_DEPTH && Agree(p, Children(v), depth + 1)
    ensures FindsNothing(p, v, depth) <==> CleanChildren(p, v, depth)
  {
  }

  lemma TooDeepIsNotClean(p: Patterns, v: Json, depth: nat)
    ensures CleanFrom(p, v, depth) ==> depth <= MAX_PAYLOAD_DEPTH
  {
    if CleanFrom(p, v, depth) {
      assert PathOk(p, v, depth, []);
    }
  }

  lemma {:induction false} GuardAgrees(p: Patterns, values: seq<Json>, depth: nat)
    requires depth <= MAX_PAYLOAD_DEPTH + 1
    ensures Agree(p, values, depth)
    decreases MAX_PAYLOAD_DEPTH + 1 - depth, 1
  {
    forall i | 0 <= i < |values|
      ensures FindViolation(p, values[i], depth).None? <==> CleanFrom(p, values[i], depth)
    {
      GuardExactly(p, values[i], depth);
    }
  }

  /** The guard finds nothing exactly when no path leads too deep, to an address, or to a forbidden key. */
  lemma {:induction false} GuardExactly(p: Patterns, v: Json, depth: nat)
    requires depth <= MAX_PAYLOAD_DEPTH + 1
    ensures FindViolation(p, v, depth).None? <==> CleanFrom(p, v, depth)
    decreases MAX_PAYLOAD_DEPTH + 1 - depth, 0
  {
    if depth > MAX_PAYLOAD_DEPTH {
      TooDeepIsNotClean(p, v, depth);
    } else {
      GuardAgrees(p, Children(v), depth + 1);
      AgreeingChildren(p, v, depth);
      FindExactly(p, v, depth);
      CleanFromExactly(p, v, depth);
    }
  }

  // ---- what is reported ----

  /** The value at the end of the path violates this rule. */
  ghost predicate Offends(p: Patterns, v: Json, depth: nat, path: seq<nat>, kind: Violation) {
    && At(v, path).Some?
    && var node := At(v, path).value;
       match kind
       case TooDeep => depth + |path| > 32
       case AddressInValue => node.Str? && p.hasAddress(node.s)
       case AddressInKey => node.Obj? && exists i :: 0 <= i < |node.fields| && IsAddressKey(p, node.fields[i].key)
       case ForbiddenKey => node.Obj? && exists i :: 0 <= i < |node.fields| && IsBadKey(p, node.fields[i].key)
  }

  ghost predicate OffendsBelow(p: Patterns, v: Json, depth: nat, kind: Violation) {
    exists path :: Offends(p, v, depth, path, kind)
  }

  lemma ChildOffends(p: Patterns, v: Json, depth: nat, i: nat, kind: Violation)
    requires i < |Children(v)| && OffendsBelow(p, Children(v)[i], depth + 1, kind)
    ensures OffendsBelow(p, v, depth, kind)
  {
    var path :| Offends(p, Children(v)[i], depth + 1, path, kind);
    var longer := [i] + path;
    assert longer[1..] == path;
    AtChild(v, longer);
    assert Offends(p, v, depth, longer, kind);
  }

  /** A violation that is reported is there, at some path. */
  lemma {:induction false} ReportIsTrue(p: Patterns, v: Json, depth: nat)
    requires depth <= MAX_PAYLOAD_DEPTH + 1 && FindViolation(p, v, depth).Some?
    ensures OffendsBelow(p, v, depth, FindViolation(p, v, depth).value)
    decreases MAX_PAYLOAD_DEPTH + 1 - depth, 1, 0
  {
    var kind := FindViolation(p, v, depth).value;
    if depth > MAX_PAYLOAD_DEPTH || v.Str? {
      assert Offends(p, v, depth, [], kind);
    } else if v.Arr? {
      var i := ItemReport(p, v.items, depth);
      ChildOffends(p, v, depth, i, kind);
    } else {
      var i, inKey := FieldReport(p, v.fields, depth);
      if inKey {
        assert Offends(p, v, depth, [], kind);
      } else {
        assert Children(v)[i] == v.fields[i].value;
        ChildOffends(p, v, depth, i, kind);
      }
    }
  }

  lemma {:induction false} ItemReport(p: Patterns, items: seq<Json>, depth: nat) returns (i: nat)
    requires depth <= MAX_PAYLOAD_DEPTH && FindInItems(p, items, depth).Some?
    ensures i < |items| && OffendsBelow(p, items[i], depth + 1, FindInItems(p, items, depth).value)
    decreases MAX_PAYLOAD_DEPTH + 1 - depth, 0, |items|
  {
    if FindViolation(p, items[0], depth + 1).Some? {
      ReportIsTrue(p, items[0], depth + 1);
      i := 0;
    } else {
      i := ItemReport(p, items[1..], depth);
      i := i + 1;
    }
  }

  lemma {:induction false} FieldReport(p: Patterns, fields: seq<Field>, depth: nat) returns (i: nat, inKey: bool)
    requires depth <= MAX_PAYLOAD_DEPTH && FindInFields(p, fields, depth).Some?
    ensures i < |fields|
    ensures var kind := FindInFields(p, fields, depth).value;
            if inKey then
              || (kind == AddressInKey && IsAddressKey(p, fields[i].key))
              || (kind == ForbiddenKey && IsBadKey(p, fields[i].key))
            else OffendsBelow(p, fields[i].value, depth + 1, kind)
    decreases MAX_PAYLOAD_DEPTH + 1 - depth, 0, |fields|
  {
    if KeyViolation(p, fields[0].key).Some? {
      i, inKey := 0, true;
    } else if FindViolation(p, fields[0].value, depth + 1).Some? {
      ReportIsTrue(p, fields[0].value, depth + 1);
      i, inKey := 0, false;
    } else {
      i, inKey := FieldReport(p, fields[1..], depth);
      i := i + 1;
    }
  }
}
