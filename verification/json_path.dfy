/** The parsed JSON tree of a capture export and the total path lookup over it
    (`_json_nav_path`, sharktooth.py:60-74). */
module JsonPath {
  import opened Wrappers

  /** A value as Python's json module decodes it. Numbers are reals: Python
      treats an int and a float of the same value as equal. */
  datatype Json =
    | JNull
    | JBool(b: bool)
    | JNum(n: real)
    | JStr(s: string)
    | JArr(items: seq<Json>)
    | JObj(fields: map<string, Json>)

  /** One element of a lookup path: a dictionary key or a list index. */
  datatype Step = Key(key: string) | Index(index: int)

  /** Python truthiness of a decoded value. */
  predicate Truthy(v: Json) {
    match v
    case JNull => false
    case JBool(b) => b
    case JNum(n) => n != 0.0
    case JStr(s) => s != ""
    case JArr(a) => a != []
    case JObj(m) => m != map[]
  }

  /** A step may be taken only into a list with an index in range, or into a
      dictionary that holds the key. */
  predicate ValidStep(v: Json, p: Step) {
    || (v.JArr? && p.Index? && 0 <= p.index < |v.items|)
    || (v.JObj? && p.Key? && p.key in v.fields)
  }

  /** The value a valid step leads to. */
  function Child(v: Json, p: Step): Json
    requires ValidStep(v, p)
  {
    if v.JArr? then v.items[p.index] else v.fields[p.key]
  }

  /** One iteration of the lookup loop: descend, or give up. */
  function Descend(v: Json, p: Step): Option<Json> {
    match (v, p)
    case (JArr(a), Index(i)) => if 0 <= i < |a| then Some(a[i]) else None
    case (JObj(m), Key(k)) => if k in m then Some(m[k]) else None
    case _ => None
  }

  /** The whole lookup: follow every step of the path, `None` at the first
      step that does not fit. */
  function NavPath(v: Json, path: seq<Step>): Option<Json>
    decreases |path|
  {
    if path == [] then Some(v)
    else match Descend(v, path[0])
      case None => None
      case Some(w) => NavPath(w, path[1..])
  }

  /** A single descent succeeds exactly on a valid step, and then yields the child. */
  lemma DescendIsValidStep(v: Json, p: Step)
    ensures Descend(v, p).Some? <==> ValidStep(v, p)
    ensures ValidStep(v, p) ==> Descend(v, p) == Some(Child(v, p))
  {
  }

  /** Looking up `p + q` is looking up `p`, then `q` from where `p` led. */
  lemma {:induction false} NavPathAppend(v: Json, p: seq<Step>, q: seq<Step>)
    ensures NavPath(v, p + q) == match NavPath(v, p)
                                 case None => None
                                 case Some(w) => NavPath(w, q)
    decreases |p|
  {
    if p == [] {
      assert p + q == q;
    } else {
      assert (p + q)[0] == p[0];
      assert (p + q)[1..] == p[1..] + q;
      match Descend(v, p[0])
      case None =>
      case Some(w) => NavPathAppend(w, p[1..], q);
    }
  }

  /** The lookup of a path extended by one step: it fails if the prefix failed
      or the last step is not valid where the prefix led, and otherwise yields
      that child. Any mismatch yields `None`; nothing else can happen. */
  lemma NavPathSnoc(v: Json, path: seq<Step>, p: Step)
    ensures NavPath(v, path + [p]) ==
      match NavPath(v, path)
      case None => None
      case Some(w) => if ValidStep(w, p) then Some(Child(w, p)) else None
  {
    NavPathAppend(v, path, [p]);
    match NavPath(v, path)
    case None =>
    case Some(w) =>
      assert NavPath(w, [p]) == Descend(w, p) by {
        assert [p][1..] == [];
      }
      DescendIsValidStep(w, p);
  }

  /** Whatever a lookup finds is the input itself or a value nested inside it. */
  lemma {:induction false} NavPathFindsPart(v: Json, path: seq<Step>)
    ensures NavPath(v, path).Some? ==> NavPath(v, path).value == v || NavPath(v, path).value < v
    decreases |path|
  {
    if path != [] {
      match Descend(v, path[0])
      case None =>
      case Some(w) =>
        assert w < v;
        NavPathFindsPart(w, path[1..]);
    }
  }

  /** `_json_nav_path` with `errout` false: rebinds the current value once per
      step and returns `None` at the first step that does not fit. */
  method JsonNavPath(obj: Json, path: seq<Step>) returns (r: Option<Json>)
    ensures path == [] ==> r == Some(obj)
    ensures r == NavPath(obj, path)
  {
    var cur := obj;
    var i := 0;
    while i < |path|
      invariant 0 <= i <= |path|
      invariant NavPath(obj, path) == NavPath(cur, path[i..])
    {
      var p := path[i];
      if cur.JArr? && p.Index? && 0 <= p.index < |cur.items| {
        cur := cur.items[p.index];
      } else if cur.JObj? && p.Key? && p.key in cur.fields {
        cur := cur.fields[p.key];
      } else {
        return None;
      }
      i := i + 1;
    }
    r := Some(cur);
  }
}
