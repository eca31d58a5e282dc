/** The data the director passes around as parsed YAML/JSON: Ruby's `nil`,
    booleans, integers, strings, arrays and string-keyed hashes, and the
    paths (hash keys and array indices) that address a place inside one. */
module Values {
  import opened Results

  datatype Value =
    | Null
    | Bool(b: bool)
    | Int(i: int)
    | Str(s: string)
    | Arr(items: seq<Value>)
    | Hash(fields: map<string, Value>)

  /** One step of a path: `obj[key]` on a hash, `obj[index]` on an array. */
  datatype PathElem = Key(key: string) | Index(index: nat)

  type Path = seq<PathElem>

  /** The value found by following `p` from `v`, or `None` when a step leads
      nowhere (a missing key, an index out of range, a step into a scalar). */
  function GetAt(v: Value, p: Path): Option<Value>
    decreases p
  {
    if p == [] then Some(v)
    else match p[0]
      case Key(k) => if v.Hash? && k in v.fields then GetAt(v.fields[k], p[1..]) else None
      case Index(i) => if v.Arr? && i < |v.items| then GetAt(v.items[i], p[1..]) else None
  }

  /** `v` with the place at `p` overwritten by `x`; the path must lead somewhere. */
  function SetAt(v: Value, p: Path, x: Value): Value
    requires GetAt(v, p).Some?
    decreases p
  {
    if p == [] then x
    else match p[0]
      case Key(k) => Hash(v.fields[k := SetAt(v.fields[k], p[1..], x)])
      case Index(i) => Arr(v.items[i := SetAt(v.items[i], p[1..], x)])
  }

  predicate IsPrefix(p: Path, q: Path)
  {
    |p| <= |q| && q[..|p|] == p
  }

  /** Neither path leads into the place the other one addresses. */
  predicate Unrelated(p: Path, q: Path)
  {
    !IsPrefix(p, q) && !IsPrefix(q, p)
  }

  /** Reading back the place just written gives the written value. */
  lemma {:induction false} GetSetSame(v: Value, p: Path, x: Value)
    requires GetAt(v, p).Some?
    ensures GetAt(SetAt(v, p, x), p) == Some(x)
    decreases p
  {
    if p != [] {
      match p[0]
      case Key(k) => GetSetSame(v.fields[k], p[1..], x);
      case Index(i) => GetSetSame(v.items[i], p[1..], x);
    }
  }

  /** Writing at `p` leaves every place unrelated to `p` as it was. */
  lemma {:induction false} GetSetOther(v: Value, p: Path, q: Path, x: Value)
    requires GetAt(v, p).Some?
    requires Unrelated(p, q)
    ensures GetAt(SetAt(v, p, x), q) == GetAt(v, q)
    decreases p
  {
    assert p != [] && q != [] by {
      assert [] == p[..0] && [] == q[..0];
    }
    if p[0] == q[0] {
      assert Unrelated(p[1..], q[1..]);
      match p[0]
      case Key(k) => GetSetOther(v.fields[k], p[1..], q[1..], x);
      case Index(i) => GetSetOther(v.items[i], p[1..], q[1..], x);
    }
  }

  /** A one-step path on a hash sets that top-level key. */
  lemma SetTopLevelKey(fields: map<string, Value>, k: string, x: Value)
    requires k in fields
    ensures SetAt(Hash(fields), [Key(k)], x) == Hash(fields[k := x])
  {
    assert [Key(k)][1..] == [];
  }
}
