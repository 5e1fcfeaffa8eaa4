/** JSON values as Python holds them, the structural diff of baseline.py, and its stable projection. */
module Json {
  import opened Wrappers
  import opened Order

  datatype Json =
    | JNull
    | JBool(b: bool)
    | JInt(i: int)
    | JFloat(r: real)
    | JStr(s: string)
    | JList(items: seq<Json>)
    | JObj(fields: map<string, Json>)

  // --- Python's == ------------------------------------------------------------------------

  /** Booleans, integers and floats are one numeric tower in Python: True == 1 == 1.0. */
  function Number(j: Json): Option<real> {
    match j
    case JBool(b) => Some(if b then 1.0 else 0.0)
    case JInt(i) => Some(i as real)
    case JFloat(r) => Some(r)
    case _ => None
  }

  predicate PyEq(a: Json, b: Json) {
    if Number(a).Some? || Number(b).Some? then Number(a) == Number(b)
    else match (a, b)
      case (JNull, JNull) => true
      case (JStr(x), JStr(y)) => x == y
      case (JList(x), JList(y)) => |x| == |y| && forall i :: 0 <= i < |x| ==> PyEq(x[i], y[i])
      case (JObj(x), JObj(y)) => x.Keys == y.Keys && forall k :: k in x && k in y ==> PyEq(x[k], y[k])
      case _ => false
  }

  lemma {:induction false} PyEqReflexive(a: Json)
    ensures PyEq(a, a)
  {
    match a
    case JList(x) => forall i | 0 <= i < |x| ensures PyEq(x[i], x[i]) { PyEqReflexive(x[i]); }
    case JObj(x) => forall k | k in x ensures PyEq(x[k], x[k]) { PyEqReflexive(x[k]); }
    case _ =>
  }

  lemma {:induction false} PyEqSymmetric(a: Json, b: Json)
    ensures PyEq(a, b) <==> PyEq(b, a)
  {
    match (a, b)
    case (JList(x), JList(y)) =>
      if |x| == |y| {
        forall i | 0 <= i < |x| ensures PyEq(x[i], y[i]) <==> PyEq(y[i], x[i]) { PyEqSymmetric(x[i], y[i]); }
      }
    case (JObj(x), JObj(y)) =>
      forall k | k in x && k in y ensures PyEq(x[k], y[k]) <==> PyEq(y[k], x[k]) { PyEqSymmetric(x[k], y[k]); }
    case _ =>
  }

  /** The document with every number as the real number it stands for. */
  function Numeric(j: Json): Json {
    match j
    case JBool(b) => JFloat(if b then 1.0 else 0.0)
    case JInt(i) => JFloat(i as real)
    case JList(x) => JList(NumericItems(x))
    case JObj(x) => JObj(map k | k in x :: Numeric(x[k]))
    case _ => j
  }

  function NumericItems(x: seq<Json>): (r: seq<Json>)
    ensures |r| == |x| && forall i :: 0 <= i < |x| ==> r[i] == Numeric(x[i])
  {
    if x == [] then [] else [Numeric(x[0])] + NumericItems(x[1..])
  }

  /** Python calls two values equal if and only if they are one document once all numbers are real. */
  lemma {:induction false} PyEqExactly(a: Json, b: Json)
    ensures PyEq(a, b) <==> Numeric(a) == Numeric(b)
  {
    match (a, b)
    case (JList(x), JList(y)) =>
      var u, v := NumericItems(x), NumericItems(y);
      forall i | 0 <= i < |x| && i < |y| ensures PyEq(x[i], y[i]) <==> u[i] == v[i] { PyEqExactly(x[i], y[i]); }
      if PyEq(a, b) { assert u == v; }
    case (JObj(x), JObj(y)) =>
      var u, v := Numeric(a).fields, Numeric(b).fields;
      assert u.Keys == x.Keys && v.Keys == y.Keys;
      forall k | k in x && k in y ensures PyEq(x[k], y[k]) <==> u[k] == v[k] { PyEqExactly(x[k], y[k]); }
      if PyEq(a, b) { assert u == v; }
    case _ =>
  }

  /** A document whose only numbers are integers. */
  ghost predicate IntegersOnly(j: Json) {
    match j
    case JBool(_) => false
    case JFloat(_) => false
    case JList(x) => forall i :: 0 <= i < |x| ==> IntegersOnly(x[i])
    case JObj(x) => forall k :: k in x ==> IntegersOnly(x[k])
    case _ => true
  }

  /** Without booleans and floats Python's equality is identity. */
  lemma {:induction false} PyEqIsIdentity(a: Json, b: Json)
    requires IntegersOnly(a) && IntegersOnly(b) && PyEq(a, b)
    ensures a == b
  {
    match (a, b)
    case (JList(x), JList(y)) => forall i | 0 <= i < |x| ensures x[i] == y[i] { PyEqIsIdentity(x[i], y[i]); }
    case (JObj(x), JObj(y)) => forall k | k in x ensures x[k] == y[k] { PyEqIsIdentity(x[k], y[k]); }
    case (JInt(m), JInt(n)) => assert m as real == n as real;
    case _ =>
  }

  // --- changed places ----------------------------------------------------------------------

  /** A place in a document: the keys that lead to it. */
  type Path = seq<string>

  function Under(k: string, ps: seq<Path>): (r: seq<Path>)
    ensures |r| == |ps| && forall i :: 0 <= i < |ps| ==> r[i] == [k] + ps[i]
  {
    if ps == [] then [] else [[k] + ps[0]] + Under(k, ps[1..])
  }

  /** `_changed_paths` with the places as key lists. */
  function ChangedPaths(before: Json, after: Json): seq<Path>
    decreases before, 1, 0
  {
    if before.JObj? && after.JObj? then
      ChangedIn(before, after, SortedKeys(before.fields.Keys + after.fields.Keys))
    else if !PyEq(before, after) then [[]]
    else []
  }

  function ChangedAt(before: Json, after: Json, k: string): seq<Path>
    requires before.JObj? && after.JObj?
    decreases before, 0, 0
  {
    if k !in before.fields || k !in after.fields then [[k]]
    else Under(k, ChangedPaths(before.fields[k], after.fields[k]))
  }

  function ChangedIn(before: Json, after: Json, keys: seq<string>): seq<Path>
    requires before.JObj? && after.JObj?
    decreases before, 0, |keys|
  {
    if keys == [] then [] else ChangedAt(before, after, keys[0]) + ChangedIn(before, after, keys[1..])
  }

  /** What it means for a place to be a maximal changed place, by descending along the place. */
  ghost predicate IsChanged(before: Json, after: Json, p: Path)
    decreases |p|
  {
    if before.JObj? && after.JObj? then
      p != [] && (if p[0] in before.fields && p[0] in after.fields
                  then IsChanged(before.fields[p[0]], after.fields[p[0]], p[1..])
                  else p == [p[0]] && (p[0] in before.fields || p[0] in after.fields))
    else p == [] && !PyEq(before, after)
  }

  lemma {:induction false} ChangedInMembers(before: Json, after: Json, keys: seq<string>, p: Path)
    requires before.JObj? && after.JObj?
    requires forall k :: k in keys ==> k in before.fields || k in after.fields
    ensures p in ChangedIn(before, after, keys) <==> p != [] && p[0] in keys && IsChanged(before, after, p)
    decreases before, 0, |keys|
  {
    if keys != [] {
      var k := keys[0];
      ChangedInMembers(before, after, keys[1..], p);
      assert p in ChangedAt(before, after, k) <==> p != [] && p[0] == k && IsChanged(before, after, p) by {
        if k in before.fields && k in after.fields {
          var ps := ChangedPaths(before.fields[k], after.fields[k]);
          if p != [] {
            ChangedPathsMembers(before.fields[k], after.fields[k], p[1..]);
            if p[0] == k && p[1..] in ps {
              var i :| 0 <= i < |ps| && ps[i] == p[1..];
              assert p == [k] + p[1..] == Under(k, ps)[i];
            }
          }
        }
      }
    }
  }

  /** The list holds exactly the maximal changed places. */
  lemma {:induction false} ChangedPathsMembers(before: Json, after: Json, p: Path)
    ensures p in ChangedPaths(before, after) <==> IsChanged(before, after, p)
    decreases before, 1, 0
  {
    if before.JObj? && after.JObj? {
      ChangedInMembers(before, after, SortedKeys(before.fields.Keys + after.fields.Keys), p);
    }
  }

  /** No reported place lies inside another reported place. */
  lemma {:induction false} ChangedPathsAntichain(before: Json, after: Json, p: Path, q: Path)
    requires p in ChangedPaths(before, after) && q in ChangedPaths(before, after) && p <= q
    ensures p == q
  {
    ChangedPathsMembers(before, after, p);
    ChangedPathsMembers(before, after, q);
    IsChangedAntichain(before, after, p, q);
  }

  lemma {:induction false} IsChangedAntichain(before: Json, after: Json, p: Path, q: Path)
    requires IsChanged(before, after, p) && IsChanged(before, after, q) && p <= q
    ensures p == q
    decreases |p|
  {
    if before.JObj? && after.JObj? {
      assert p[0] == q[0];
      if p[0] in before.fields && p[0] in after.fields {
        assert p[1..] <= q[1..];
        IsChangedAntichain(before.fields[p[0]], after.fields[p[0]], p[1..], q[1..]);
        assert p == [p[0]] + p[1..] && q == [q[0]] + q[1..];
      }
    }
  }

  lemma {:induction false} UnderDistinct(k: string, ps: seq<Path>)
    requires Distinct(ps)
    ensures Distinct(Under(k, ps))
  {
    forall i, j | 0 <= i < j < |ps| ensures Under(k, ps)[i] != Under(k, ps)[j] {
      assert ([k] + ps[i])[1..] == ps[i] && ([k] + ps[j])[1..] == ps[j];
    }
  }

  lemma {:induction false} ChangedInDistinct(before: Json, after: Json, keys: seq<string>)
    requires before.JObj? && after.JObj? && Distinct(keys)
    ensures Distinct(ChangedIn(before, after, keys))
    ensures forall p :: p in ChangedIn(before, after, keys) ==> p != [] && p[0] in keys
    decreases before, 0, |keys|
  {
    if keys != [] {
      var k, here, rest := keys[0], ChangedAt(before, after, keys[0]), ChangedIn(before, after, keys[1..]);
      assert forall i :: 0 <= i < |keys[1..]| ==> keys[1..][i] == keys[i + 1];
      ChangedInDistinct(before, after, keys[1..]);
      if k in before.fields && k in after.fields {
        ChangedPathsDistinct(before.fields[k], after.fields[k]);
        UnderDistinct(k, ChangedPaths(before.fields[k], after.fields[k]));
      }
      assert forall p :: p in here ==> p != [] && p[0] == k;
      assert k !in keys[1..];
      forall i, j | 0 <= i < j < |here + rest| ensures (here + rest)[i] != (here + rest)[j] {
        if i < |here| <= j { assert here[i] in here && rest[j - |here|] in rest; }
      }
    }
  }

  /** No place is reported twice. */
  lemma {:induction false} ChangedPathsDistinct(before: Json, after: Json)
    ensures Distinct(ChangedPaths(before, after))
    decreases before, 1, 0
  {
    if before.JObj? && after.JObj? {
      ChangedInDistinct(before, after, SortedKeys(before.fields.Keys + after.fields.Keys));
    }
  }

  lemma {:induction false} SomethingChanged(before: Json, after: Json) returns (p: Path)
    requires !PyEq(before, after)
    ensures IsChanged(before, after, p)
  {
    if before.JObj? && after.JObj? {
      var x, y := before.fields, after.fields;
      if x.Keys != y.Keys {
        var k :| (k in x && k !in y) || (k in y && k !in x);
        p := [k];
      } else {
        var k :| k in x && k in y && !PyEq(x[k], y[k]);
        var q := SomethingChanged(x[k], y[k]);
        p := [k] + q;
        assert p[1..] == q;
      }
    } else {
      p := [];
    }
  }

  lemma {:induction false} ChangeMeansDifferent(before: Json, after: Json, p: Path)
    requires IsChanged(before, after, p)
    ensures !PyEq(before, after)
    decreases |p|
  {
    if before.JObj? && after.JObj? && p[0] in before.fields && p[0] in after.fields {
      ChangeMeansDifferent(before.fields[p[0]], after.fields[p[0]], p[1..]);
    }
  }

  /** The diff is empty exactly when Python calls the two values equal. */
  lemma NoPathsIffEqual(before: Json, after: Json)
    ensures ChangedPaths(before, after) == [] <==> PyEq(before, after)
  {
    if PyEq(before, after) {
      var ps := ChangedPaths(before, after);
      if ps != [] {
        ChangedPathsMembers(before, after, ps[0]);
        ChangeMeansDifferent(before, after, ps[0]);
      }
    } else {
      var p := SomethingChanged(before, after);
      ChangedPathsMembers(before, after, p);
    }
  }

  // --- patching ------------------------------------------------------------------------------

  function Get(j: Json, p: Path): Option<Json> {
    if p == [] then Some(j)
    else if j.JObj? && p[0] in j.fields then Get(j.fields[p[0]], p[1..])
    else None
  }

  /** Replaces the value at a place, or removes the key if there is no value. */
  function Put(j: Json, p: Path, v: Option<Json>): Json
    decreases |p|
  {
    if p == [] then (if v.Some? then v.value else j)
    else if !j.JObj? then j
    else if |p| == 1 then
      JObj(if v.Some? then j.fields[p[0] := v.value] else j.fields - {p[0]})
    else if p[0] in j.fields then JObj(j.fields[p[0] := Put(j.fields[p[0]], p[1..], v)])
    else j
  }

  /** Takes over from `after` everything at the given places. */
  function Patch(j: Json, ps: seq<Path>, after: Json): Json
    decreases |ps|
  {
    if ps == [] then j else Patch(Put(j, ps[0], Get(after, ps[0])), ps[1..], after)
  }

  lemma {:induction false} PatchAppend(j: Json, ps: seq<Path>, qs: seq<Path>, after: Json)
    ensures Patch(j, ps + qs, after) == Patch(Patch(j, ps, after), qs, after)
    decreases |ps|
  {
    if ps == [] {
      assert ps + qs == qs;
    } else {
      assert (ps + qs)[1..] == ps[1..] + qs;
      PatchAppend(Put(j, ps[0], Get(after, ps[0])), ps[1..], qs, after);
    }
  }

  /** Patching below one key changes only the value of that key. */
  lemma {:induction false} PatchUnder(j: Json, k: string, ps: seq<Path>, after: Json)
    requires j.JObj? && k in j.fields && after.JObj? && k in after.fields
    ensures Patch(j, Under(k, ps), after) == JObj(j.fields[k := Patch(j.fields[k], ps, after.fields[k])])
    decreases |ps|
  {
    if ps == [] {
      assert j.fields[k := j.fields[k]] == j.fields;
    } else {
      var p := [k] + ps[0];
      assert p[1..] == ps[0];
      var v := Get(after, p);
      assert v == Get(after.fields[k], ps[0]);
      var j' := Put(j, p, v);
      assert j' == JObj(j.fields[k := Put(j.fields[k], ps[0], v)]) by {
        if ps[0] == [] { assert v == Some(after.fields[k]); }
      }
      PatchUnder(j', k, ps[1..], after);
      var x := Patch(j'.fields[k], ps[1..], after.fields[k]);
      assert j'.fields[k := x] == j.fields[k := x];
    }
  }

  /** `after`, except that values Python calls equal stay as they were. */
  function Merged(before: Json, after: Json): Json {
    if before.JObj? && after.JObj? then
      JObj(map k | k in after.fields ::
             if k in before.fields then Merged(before.fields[k], after.fields[k]) else after.fields[k])
    else if PyEq(before, after) then before
    else after
  }

  /** `j` is already merged outside `keys` and still is `before` on them. */
  ghost predicate MergedOutside(j: Json, before: Json, after: Json, keys: seq<string>) {
    && j.JObj? && before.JObj? && after.JObj?
    && (forall k :: k in keys ==> (k in j.fields <==> k in before.fields))
    && (forall k :: k in keys && k in before.fields && k in j.fields ==> j.fields[k] == before.fields[k])
    && (forall k :: k !in keys ==> (k in j.fields <==> k in after.fields))
    && (forall k :: k !in keys && k in after.fields && k in j.fields ==> j.fields[k] == Merged(before, after).fields[k])
  }

  lemma PatchKey(j: Json, before: Json, after: Json, keys: seq<string>)
    requires keys != [] && Distinct(keys) && MergedOutside(j, before, after, keys)
    requires var k := keys[0];
             k in before.fields && k in after.fields ==>
               Patch(before.fields[k], ChangedPaths(before.fields[k], after.fields[k]), after.fields[k])
               == Merged(before.fields[k], after.fields[k])
    ensures MergedOutside(Patch(j, ChangedAt(before, after, keys[0]), after), before, after, keys[1..])
  {
    var k := keys[0];
    assert forall q :: q in keys[1..] ==> q in keys && q != k;
    assert forall q :: q !in keys[1..] ==> q == k || q !in keys;
    if k in before.fields && k in after.fields {
      PatchUnder(j, k, ChangedPaths(before.fields[k], after.fields[k]), after);
    } else {
      var j' := Put(j, [k], Get(after, [k]));
      assert Patch(j', [], after) == j' && [[k]][1..] == [];
      assert Patch(j, [[k]], after) == j';
      assert [k][1..] == [];
      assert Get(after, [k]) == if k in after.fields then Some(after.fields[k]) else None;
    }
  }

  lemma {:induction false} PatchKeys(j: Json, before: Json, after: Json, keys: seq<string>)
    requires Distinct(keys) && MergedOutside(j, before, after, keys)
    ensures MergedOutside(Patch(j, ChangedIn(before, after, keys), after), before, after, [])
    decreases before, 0, |keys|
  {
    if keys != [] {
      var k := keys[0];
      if k in before.fields && k in after.fields { PatchIsMerged(before.fields[k], after.fields[k]); }
      PatchKey(j, before, after, keys);
      var j' := Patch(j, ChangedAt(before, after, k), after);
      assert Distinct(keys[1..]) by { assert forall i :: 0 <= i < |keys[1..]| ==> keys[1..][i] == keys[i + 1]; }
      PatchKeys(j', before, after, keys[1..]);
      PatchAppend(j, ChangedAt(before, after, k), ChangedIn(before, after, keys[1..]), after);
    }
  }

  lemma MergedEverywhere(j: Json, before: Json, after: Json)
    requires MergedOutside(j, before, after, [])
    ensures j == Merged(before, after)
  {
    assert j.fields.Keys == after.fields.Keys;
    assert j.fields == Merged(before, after).fields;
  }

  /** Taking over the reported places from `after` gives exactly the merge. */
  lemma {:induction false} PatchIsMerged(before: Json, after: Json)
    ensures Patch(before, ChangedPaths(before, after), after) == Merged(before, after)
    decreases before, 1, 0
  {
    if before.JObj? && after.JObj? {
      var keys := SortedKeys(before.fields.Keys + after.fields.Keys);
      PatchKeys(before, before, after, keys);
      MergedEverywhere(Patch(before, ChangedPaths(before, after), after), before, after);
    } else if !PyEq(before, after) {
      assert Patch(before, [[]], after) == Patch(after, [], after);
    }
  }

  lemma {:induction false} MergedIsEqual(before: Json, after: Json)
    ensures PyEq(Merged(before, after), after)
  {
    if before.JObj? && after.JObj? {
      forall k | k in after.fields ensures PyEq(Merged(before, after).fields[k], after.fields[k]) {
        if k in before.fields {
          MergedIsEqual(before.fields[k], after.fields[k]);
        } else {
          PyEqReflexive(after.fields[k]);
        }
      }
    } else if !PyEq(before, after) {
      PyEqReflexive(after);
    }
  }

  /** The reported places suffice: taking them over from `after` turns `before` into `after`,
      up to Python's equality. */
  lemma PatchGivesAfter(before: Json, after: Json)
    ensures PyEq(Patch(before, ChangedPaths(before, after), after), after)
  {
    PatchIsMerged(before, after);
    MergedIsEqual(before, after);
  }

  /** No value hides behind another one: wherever the diff stops, equal for Python means identical. */
  ghost predicate Unmasked(before: Json, after: Json) {
    if before.JObj? && after.JObj? then
      forall k :: k in before.fields && k in after.fields ==> Unmasked(before.fields[k], after.fields[k])
    else PyEq(before, after) ==> before == after
  }

  lemma {:induction false} MergedIsAfterExactly(before: Json, after: Json)
    ensures Merged(before, after) == after <==> Unmasked(before, after)
  {
    if before.JObj? && after.JObj? {
      var m := Merged(before, after);
      forall k | k in before.fields && k in after.fields
        ensures m.fields[k] == after.fields[k] <==> Unmasked(before.fields[k], after.fields[k])
      {
        MergedIsAfterExactly(before.fields[k], after.fields[k]);
      }
      if Unmasked(before, after) { assert m.fields == after.fields; }
    }
  }

  /** The result is `after` itself if and only if no value is masked by another one. */
  lemma PatchGivesAfterExactly(before: Json, after: Json)
    ensures Patch(before, ChangedPaths(before, after), after) == after <==> Unmasked(before, after)
  {
    PatchIsMerged(before, after);
    MergedIsAfterExactly(before, after);
  }

  /** Documents without booleans and floats mask nothing. */
  lemma {:induction false} IntegersUnmasked(before: Json, after: Json)
    requires IntegersOnly(before) && IntegersOnly(after)
    ensures Unmasked(before, after)
  {
    if before.JObj? && after.JObj? {
      forall k | k in before.fields && k in after.fields ensures Unmasked(before.fields[k], after.fields[k]) {
        IntegersUnmasked(before.fields[k], after.fields[k]);
      }
    } else if PyEq(before, after) {
      PyEqIsIdentity(before, after);
    }
  }

  /** `true` hides behind `1`: the patch leaves it in place. */
  lemma TrueMasksOne(k: string)
    ensures var before, after := JObj(map[k := JBool(true)]), JObj(map[k := JInt(1)]);
            before != after && Patch(before, ChangedPaths(before, after), after) == before
  {
    var before, after := JObj(map[k := JBool(true)]), JObj(map[k := JInt(1)]);
    assert before.fields[k] != after.fields[k];
    PatchIsMerged(before, after);
    assert Merged(before, after).fields == before.fields;
  }

  /** A diff does not depend on its direction. */
  lemma {:induction false} ChangedPathsSymmetric(a: Json, b: Json)
    ensures ChangedPaths(a, b) == ChangedPaths(b, a)
    decreases a, 1, 0
  {
    if a.JObj? && b.JObj? {
      assert a.fields.Keys + b.fields.Keys == b.fields.Keys + a.fields.Keys;
      ChangedInSymmetric(a, b, SortedKeys(a.fields.Keys + b.fields.Keys));
    } else {
      PyEqSymmetric(a, b);
    }
  }

  lemma {:induction false} ChangedInSymmetric(a: Json, b: Json, keys: seq<string>)
    requires a.JObj? && b.JObj?
    ensures ChangedIn(a, b, keys) == ChangedIn(b, a, keys)
    decreases a, 0, |keys|
  {
    if keys != [] {
      var k := keys[0];
      if k in a.fields && k in b.fields { ChangedPathsSymmetric(a.fields[k], b.fields[k]); }
      ChangedInSymmetric(a, b, keys[1..]);
    }
  }

  // --- the printed form of a place ----------------------------------------------------------------

  function Child(prefix: string, k: string): string {
    if prefix != "" then prefix + "." + k else k
  }

  /** `_changed_paths` as written: places are dotted texts. */
  function ChangedTexts(before: Json, after: Json, prefix: string): seq<string>
    decreases before, 1, 0
  {
    if before.JObj? && after.JObj? then
      ChangedTextsIn(before, after, prefix, SortedKeys(before.fields.Keys + after.fields.Keys))
    else if !PyEq(before, after) then [if prefix != "" then prefix else "value"]
    else []
  }

  function ChangedTextsIn(before: Json, after: Json, prefix: string, keys: seq<string>): seq<string>
    requires before.JObj? && after.JObj?
    decreases before, 0, |keys|
  {
    if keys == [] then []
    else
      var k := keys[0];
      (if k !in before.fields || k !in after.fields then [Child(prefix, k)]
       else ChangedTexts(before.fields[k], after.fields[k], Child(prefix, k)))
      + ChangedTextsIn(before, after, prefix, keys[1..])
  }

  /** A text is reported for every changed place, and never for a pair Python calls equal. */
  lemma {:induction false} OneTextPerPlace(before: Json, after: Json, prefix: string)
    ensures |ChangedTexts(before, after, prefix)| == |ChangedPaths(before, after)|
    decreases before, 1, 0
  {
    if before.JObj? && after.JObj? {
      OneTextPerPlaceIn(before, after, prefix, SortedKeys(before.fields.Keys + after.fields.Keys));
    }
  }

  lemma {:induction false} OneTextPerPlaceIn(before: Json, after: Json, prefix: string, keys: seq<string>)
    requires before.JObj? && after.JObj?
    ensures |ChangedTextsIn(before, after, prefix, keys)| == |ChangedIn(before, after, keys)|
    decreases before, 0, |keys|
  {
    if keys != [] {
      var k := keys[0];
      if k in before.fields && k in after.fields {
        OneTextPerPlace(before.fields[k], after.fields[k], Child(prefix, k));
      }
      OneTextPerPlaceIn(before, after, prefix, keys[1..]);
    }
  }

  lemma {:induction false} ChangedTextsSymmetric(a: Json, b: Json, prefix: string)
    ensures ChangedTexts(a, b, prefix) == ChangedTexts(b, a, prefix)
    decreases a, 1, 0
  {
    if a.JObj? && b.JObj? {
      assert a.fields.Keys + b.fields.Keys == b.fields.Keys + a.fields.Keys;
      ChangedTextsInSymmetric(a, b, prefix, SortedKeys(a.fields.Keys + b.fields.Keys));
    } else {
      PyEqSymmetric(a, b);
    }
  }

  lemma {:induction false} ChangedTextsInSymmetric(a: Json, b: Json, prefix: string, keys: seq<string>)
    requires a.JObj? && b.JObj?
    ensures ChangedTextsIn(a, b, prefix, keys) == ChangedTextsIn(b, a, prefix, keys)
    decreases a, 0, |keys|
  {
    if keys != [] {
      var k := keys[0];
      if k in a.fields && k in b.fields { ChangedTextsSymmetric(a.fields[k], b.fields[k], Child(prefix, k)); }
      ChangedTextsInSymmetric(a, b, prefix, keys[1..]);
    }
  }

  /** The text of a place, as the recursion builds it on the way down. */
  function PlaceText(before: Json, after: Json, prefix: string, p: Path): string
    decreases |p|
  {
    if p == [] || !before.JObj? || !after.JObj? then (if prefix != "" then prefix else "value")
    else if p[0] in before.fields && p[0] in after.fields then
      PlaceText(before.fields[p[0]], after.fields[p[0]], Child(prefix, p[0]), p[1..])
    else Child(prefix, p[0])
  }

  /** The printed list is the list of places, each by its text. */
  lemma {:induction false} TextsOfPlaces(before: Json, after: Json, prefix: string, i: nat)
    requires i < |ChangedPaths(before, after)|
    ensures |ChangedTexts(before, after, prefix)| == |ChangedPaths(before, after)|
    ensures ChangedTexts(before, after, prefix)[i] == PlaceText(before, after, prefix, ChangedPaths(before, after)[i])
    decreases before, 1, 0
  {
    OneTextPerPlace(before, after, prefix);
    if before.JObj? && after.JObj? {
      TextsOfPlacesIn(before, after, prefix, SortedKeys(before.fields.Keys + after.fields.Keys), i);
    }
  }

  /** The texts of the places at or below one key. */
  ghost function ChangedTextsAt(before: Json, after: Json, prefix: string, k: string): seq<string>
    requires before.JObj? && after.JObj?
  {
    if k !in before.fields || k !in after.fields then [Child(prefix, k)]
    else ChangedTexts(before.fields[k], after.fields[k], Child(prefix, k))
  }

  lemma {:induction false} TextsOfPlacesAt(before: Json, after: Json, prefix: string, k: string, i: nat)
    requires before.JObj? && after.JObj?
    requires i < |ChangedAt(before, after, k)|
    ensures |ChangedTextsAt(before, after, prefix, k)| == |ChangedAt(before, after, k)|
    ensures ChangedTextsAt(before, after, prefix, k)[i]
         == PlaceText(before, after, prefix, ChangedAt(before, after, k)[i])
    decreases before, 0, 0
  {
    if k in before.fields && k in after.fields {
      TextsOfPlaces(before.fields[k], after.fields[k], Child(prefix, k), i);
      var q := ChangedPaths(before.fields[k], after.fields[k])[i];
      assert ChangedAt(before, after, k)[i] == [k] + q;
      assert ([k] + q)[1..] == q && ([k] + q)[0] == k;
    }
  }

  lemma {:induction false} TextsOfPlacesIn(before: Json, after: Json, prefix: string, keys: seq<string>, i: nat)
    requires before.JObj? && after.JObj?
    requires i < |ChangedIn(before, after, keys)|
    ensures |ChangedTextsIn(before, after, prefix, keys)| == |ChangedIn(before, after, keys)|
    ensures ChangedTextsIn(before, after, prefix, keys)[i]
         == PlaceText(before, after, prefix, ChangedIn(before, after, keys)[i])
    decreases before, 0, |keys|
  {
    OneTextPerPlaceIn(before, after, prefix, keys);
    var k := keys[0];
    OneTextPerPlaceIn(before, after, prefix, keys[1..]);
    var n := |ChangedAt(before, after, k)|;
    assert |ChangedTextsAt(before, after, prefix, k)| == n;
    assert ChangedTextsIn(before, after, prefix, keys)
           == ChangedTextsAt(before, after, prefix, k) + ChangedTextsIn(before, after, prefix, keys[1..]);
    if i < n {
      TextsOfPlacesAt(before, after, prefix, k, i);
    } else {
      TextsOfPlacesIn(before, after, prefix, keys[1..], i - n);
    }
  }

  lemma PlaceOf(before: Json, after: Json, p: Path) returns (i: nat)
    requires IsChanged(before, after, p)
    ensures i < |ChangedPaths(before, after)| == |ChangedTexts(before, after, "")|
    ensures ChangedPaths(before, after)[i] == p && ChangedTexts(before, after, "")[i] == PlaceText(before, after, "", p)
  {
    ChangedPathsMembers(before, after, p);
    i :| 0 <= i < |ChangedPaths(before, after)| && ChangedPaths(before, after)[i] == p;
    TextsOfPlaces(before, after, "", i);
  }

  /** Two changed places with one text print a repetition. */
  lemma SameTextRepeats(before: Json, after: Json, p: Path, q: Path)
    requires p != q && IsChanged(before, after, p) && IsChanged(before, after, q)
    requires PlaceText(before, after, "", p) == PlaceText(before, after, "", q)
    ensures !Distinct(ChangedTexts(before, after, ""))
  {
    var i := PlaceOf(before, after, p);
    var j := PlaceOf(before, after, q);
  }

  /** Every object key of a document that the diff can meet is one of these keys. */
  ghost predicate KeysIn(keys: string -> bool, j: Json) {
    match j
    case JObj(x) => forall k :: k in x ==> keys(k) && KeysIn(keys, x[k])
    case _ => true
  }

  predicate PlainKey(k: string) {
    k != "" && '.' !in k
  }

  /** Every object key of a document is non-empty and has no dot. */
  ghost predicate PlainKeys(j: Json) {
    KeysIn(PlainKey, j)
  }

  /** Keys joined by dots. */
  function Join(p: Path): string
    requires p != []
  {
    if |p| == 1 then p[0] else p[0] + "." + Join(p[1..])
  }

  /** With plain keys the text of a place is its keys joined by dots. */
  lemma {:induction false} TextIsJoin(before: Json, after: Json, prefix: string, p: Path)
    requires PlainKeys(before) && PlainKeys(after) && IsChanged(before, after, p) && p != []
    ensures PlaceText(before, after, prefix, p) == if prefix == "" then Join(p) else prefix + "." + Join(p)
    decreases |p|
  {
    var k := p[0];
    if k in before.fields && k in after.fields {
      if |p| == 1 {
        assert p[1..] == [];
      } else {
        TextIsJoin(before.fields[k], after.fields[k], Child(prefix, k), p[1..]);
        if prefix != "" {
          assert prefix + "." + k + "." + Join(p[1..]) == prefix + "." + (k + "." + Join(p[1..]));
        }
      }
    }
  }

  lemma {:induction false} JoinInjective(p: Path, q: Path)
    requires p != [] && q != [] && Join(p) == Join(q)
    requires forall i :: 0 <= i < |p| ==> PlainKey(p[i])
    requires forall i :: 0 <= i < |q| ==> PlainKey(q[i])
    ensures p == q
    decreases |p|
  {
    var s := Join(p);
    FirstPart(p);
    FirstPart(q);
    FirstKeyEnds(p, q);
    FirstKeyEnds(q, p);
    assert p[0] == s[..|p[0]|] == q[0];
    if |p| > 1 && |q| > 1 {
      assert Join(p[1..]) == s[|p[0]| + 1..] == Join(q[1..]);
      JoinInjective(p[1..], q[1..]);
      assert p == [p[0]] + p[1..] && q == [q[0]] + q[1..];
    } else {
      assert |s| == |p[0]| ==> |p| == 1 && |q| == 1;
    }
  }

  lemma FirstKeyEnds(p: Path, q: Path)
    requires p != [] && q != [] && Join(p) == Join(q) && PlainKey(q[0])
    ensures |q[0]| <= |p[0]|
  {
    FirstPart(p);
    FirstPart(q);
    assert forall i :: 0 <= i < |q[0]| ==> Join(q)[i] == q[0][i] && q[0][i] != '.';
  }

  lemma FirstPart(p: Path)
    requires p != []
    ensures p[0] <= Join(p)
    ensures |p| > 1 ==> |p[0]| < |Join(p)| && Join(p)[|p[0]|] == '.'
    ensures |p| == 1 ==> Join(p) == p[0]
  {
  }

  /** With plain keys the printed texts tell the changed places apart. */
  lemma PrintedPlacesDiffer(before: Json, after: Json)
    requires PlainKeys(before) && PlainKeys(after)
    ensures Distinct(ChangedTexts(before, after, ""))
  {
    var ps, ts := ChangedPaths(before, after), ChangedTexts(before, after, "");
    OneTextPerPlace(before, after, "");
    ChangedPathsDistinct(before, after);
    forall i, j | 0 <= i < j < |ts| ensures ts[i] != ts[j] {
      TextsOfPlaces(before, after, "", i);
      TextsOfPlaces(before, after, "", j);
      TextsDiffer(before, after, ps[i], ps[j]);
    }
  }

  lemma TextsDiffer(before: Json, after: Json, p: Path, q: Path)
    requires PlainKeys(before) && PlainKeys(after) && p != q
    requires p in ChangedPaths(before, after) && q in ChangedPaths(before, after)
    ensures PlaceText(before, after, "", p) != PlaceText(before, after, "", q)
  {
    PlacesArePlain(before, after, p);
    PlacesArePlain(before, after, q);
    ChangedPathsMembers(before, after, p);
    ChangedPathsMembers(before, after, q);
    if p == [] { ChangedPathsAntichain(before, after, p, q); }
    if q == [] { ChangedPathsAntichain(before, after, q, p); }
    if p != [] && q != [] {
      TextIsJoin(before, after, "", p);
      TextIsJoin(before, after, "", q);
      if Join(p) == Join(q) { JoinInjective(p, q); }
    }
  }

  lemma PlacesArePlain(before: Json, after: Json, p: Path)
    requires PlainKeys(before) && PlainKeys(after) && p in ChangedPaths(before, after)
    ensures forall i :: 0 <= i < |p| ==> PlainKey(p[i])
  {
    ChangedPathsMembers(before, after, p);
    IsChangedPlain(before, after, p);
  }

  lemma {:induction false} IsChangedPlain(before: Json, after: Json, p: Path)
    requires PlainKeys(before) && PlainKeys(after) && IsChanged(before, after, p)
    ensures forall i :: 0 <= i < |p| ==> PlainKey(p[i])
    decreases |p|
  {
    if before.JObj? && after.JObj? && p[0] in before.fields && p[0] in after.fields {
      IsChangedPlain(before.fields[p[0]], after.fields[p[0]], p[1..]);
      assert forall i :: 0 < i < |p| ==> p[i] == p[1..][i - 1];
    }
  }

  /** A key with a dot behind its first character, next to the key in front of the dot: the value
      under the key and the one below its first part are both gone, and print one text. */
  lemma DottedKeyClashes(x: string, y: string)
    requires x != ""
    ensures var k := x + "." + y;
            !Distinct(ChangedTexts(JObj(map[k := JNull, x := JObj(map[y := JNull])]), JObj(map[x := JObj(map[])]), ""))
  {
    var k := x + "." + y;
    var before, after := JObj(map[k := JNull, x := JObj(map[y := JNull])]), JObj(map[x := JObj(map[])]);
    assert |k| > |x|;
    assert [x, y][1..] == [y] && Child(x, y) == k;
    assert IsChanged(before, after, [k]) && PlaceText(before, after, "", [k]) == k;
    assert IsChanged(before.fields[x], after.fields[x], [y]) && IsChanged(before, after, [x, y]);
    assert PlaceText(before, after, "", [x, y]) == PlaceText(before.fields[x], after.fields[x], x, [y]) == k;
    SameTextRepeats(before, after, [k], [x, y]);
  }

  /** The empty key leaves no trace in a text: what lies below it prints like what lies beside it. */
  lemma EmptyKeyClashes(a: string)
    requires a != ""
    ensures var before, after := JObj(map["" := JObj(map[a := JNull]), a := JNull]), JObj(map["" := JObj(map[])]);
            !Distinct(ChangedTexts(before, after, ""))
  {
    var before, after := JObj(map["" := JObj(map[a := JNull]), a := JNull]), JObj(map["" := JObj(map[])]);
    assert ["", a][1..] == [a];
    assert IsChanged(before, after, [a]) && PlaceText(before, after, "", [a]) == a;
    assert IsChanged(before.fields[""], after.fields[""], [a]) && IsChanged(before, after, ["", a]);
    assert PlaceText(before, after, "", ["", a]) == PlaceText(before.fields[""], after.fields[""], "", [a]) == a;
    SameTextRepeats(before, after, [a], ["", a]);
  }

  /** Every part of a key at a dot is a key. */
  ghost predicate SplitClosed(keys: string -> bool) {
    forall x: string, y: string :: keys(x + "." + y) ==> keys(x) && keys(y)
  }

  /** A key that is not plain, some non-empty key, and the parts of both admit a clash. */
  lemma NotPlainClashes(keys: string -> bool, k: string, a: string) returns (before: Json, after: Json)
    requires SplitClosed(keys) && keys(k) && !PlainKey(k) && keys(a) && a != ""
    ensures KeysIn(keys, before) && KeysIn(keys, after) && before.JObj? && k in before.fields
    ensures !Distinct(ChangedTexts(before, after, ""))
  {
    if i :| 0 < i < |k| && k[i] == '.' {
      var x, y := k[..i], k[i + 1..];
      assert k == x + "." + y;
      DottedKeyClashes(x, y);
      before, after := JObj(map[k := JNull, x := JObj(map[y := JNull])]), JObj(map[x := JObj(map[])]);
    } else {
      var b := if k == "" then a else k;
      if k != "" {
        assert k[0] == '.';
        assert k == "" + "." + k[1..];
      }
      EmptyKeyClashes(b);
      before, after := JObj(map["" := JObj(map[b := JNull]), b := JNull]), JObj(map["" := JObj(map[])]);
    }
  }

  /** Plain keys are exactly what it takes: over a family of keys that contains the parts of its keys
      (and is not just the empty key), all diffs print different texts for different places if and only
      if every key of the family is plain. */
  lemma PlainKeysExactly(keys: string -> bool)
    requires SplitClosed(keys) && exists a :: keys(a) && a != ""
    ensures (forall before, after :: KeysIn(keys, before) && KeysIn(keys, after) ==>
               Distinct(ChangedTexts(before, after, "")))
        <==> forall k :: keys(k) ==> PlainKey(k)
  {
    if k :| keys(k) && !PlainKey(k) {
      var a :| keys(a) && a != "";
      var before, after := NotPlainClashes(keys, k, a);
    }
    if forall k :: keys(k) ==> PlainKey(k) {
      forall before, after | KeysIn(keys, before) && KeysIn(keys, after)
        ensures Distinct(ChangedTexts(before, after, ""))
      {
        KeysMonotone(keys, PlainKey, before);
        KeysMonotone(keys, PlainKey, after);
        PrintedPlacesDiffer(before, after);
      }
    }
  }

  lemma {:induction false} KeysMonotone(keys: string -> bool, more: string -> bool, j: Json)
    requires KeysIn(keys, j) && forall k :: keys(k) ==> more(k)
    ensures KeysIn(more, j)
  {
    if j.JObj? {
      forall k | k in j.fields ensures KeysIn(more, j.fields[k]) { KeysMonotone(keys, more, j.fields[k]); }
    }
  }

  // --- the stable projection ----------------------------------------------------------------------

  /** The text cleaning and the list of volatile keys, left uninterpreted. */
  datatype Rules = Rules(clean: string -> string, volatile: string -> bool) {
    /** Cleaning a cleaned text changes nothing. */
    ghost predicate Idempotent() {
      forall s :: clean(clean(s)) == clean(s)
    }
  }

  /** `_stable_value`. */
  function Stable(rules: Rules, j: Json): Json {
    match j
    case JObj(x) => JObj(map k | k in x && !rules.volatile(k) :: Stable(rules, x[k]))
    case JList(x) => JList(StableItems(rules, x))
    case JStr(s) => JStr(rules.clean(s))
    case _ => j
  }

  function StableItems(rules: Rules, x: seq<Json>): (r: seq<Json>)
    ensures |r| == |x| && forall i :: 0 <= i < |x| ==> r[i] == Stable(rules, x[i])
  {
    if x == [] then [] else [Stable(rules, x[0])] + StableItems(rules, x[1..])
  }

  lemma {:induction false} StableTwice(rules: Rules, j: Json)
    requires rules.Idempotent()
    ensures Stable(rules, Stable(rules, j)) == Stable(rules, j)
  {
    match j
    case JObj(x) =>
      var y := Stable(rules, j).fields;
      forall k | k in y ensures Stable(rules, y[k]) == y[k] { StableTwice(rules, x[k]); }
      assert Stable(rules, JObj(y)).fields == y;
    case JList(x) =>
      forall i | 0 <= i < |x| { StableTwice(rules, x[i]); }
      assert StableItems(rules, StableItems(rules, x)) == StableItems(rules, x);
    case _ =>
  }

  /** The same up to volatile fields and text cleaning, by descending both documents. */
  ghost predicate Alike(rules: Rules, a: Json, b: Json) {
    match (a, b)
    case (JObj(x), JObj(y)) =>
      && (forall k :: !rules.volatile(k) ==> (k in x <==> k in y))
      && (forall k :: k in x && k in y && !rules.volatile(k) ==> Alike(rules, x[k], y[k]))
    case (JList(x), JList(y)) => |x| == |y| && forall i :: 0 <= i < |x| ==> Alike(rules, x[i], y[i])
    case (JStr(s), JStr(t)) => rules.clean(s) == rules.clean(t)
    case _ => a == b
  }

  /** Two documents have one stable value if and only if they are alike: the projection drops volatile
      fields and what cleaning drops from texts, and nothing else. */
  lemma {:induction false} StableExactly(rules: Rules, a: Json, b: Json)
    ensures Stable(rules, a) == Stable(rules, b) <==> Alike(rules, a, b)
  {
    match (a, b)
    case (JObj(x), JObj(y)) =>
      var u, v := Stable(rules, a).fields, Stable(rules, b).fields;
      forall k | k in x && k in y && !rules.volatile(k) ensures u[k] == v[k] <==> Alike(rules, x[k], y[k]) {
        StableExactly(rules, x[k], y[k]);
      }
      assert forall k :: k in u <==> k in x && !rules.volatile(k);
      assert forall k :: k in v <==> k in y && !rules.volatile(k);
      if Alike(rules, a, b) { assert u == v; }
    case (JList(x), JList(y)) =>
      var u, v := StableItems(rules, x), StableItems(rules, y);
      forall i | 0 <= i < |x| && i < |y| ensures u[i] == v[i] <==> Alike(rules, x[i], y[i]) {
        StableExactly(rules, x[i], y[i]);
      }
      if Alike(rules, a, b) { assert u == v; }
    case _ =>
  }

  /** Where cleaning is idempotent the stable value is itself alike to the document. */
  lemma StableIsAlike(rules: Rules, j: Json)
    requires rules.Idempotent()
    ensures Alike(rules, Stable(rules, j), j)
  {
    StableTwice(rules, j);
    StableExactly(rules, Stable(rules, j), j);
  }

  /** Nothing that happens to a volatile field, at any depth, shows in the stable value. */
  lemma {:induction false} VolatileInvisible(rules: Rules, j: Json, p: Path, k: string, v: Option<Json>)
    requires rules.volatile(k)
    ensures Stable(rules, Put(j, p + [k], v)) == Stable(rules, j)
    decreases |p|
  {
    var q := p + [k];
    if j.JObj? {
      if p == [] {
        assert Stable(rules, Put(j, q, v)).fields == Stable(rules, j).fields;
      } else if p[0] in j.fields {
        assert q[1..] == p[1..] + [k];
        VolatileInvisible(rules, j.fields[p[0]], p[1..], k, v);
        assert Stable(rules, Put(j, q, v)).fields == Stable(rules, j).fields;
      }
    }
  }
}
