/**
 * The request body handed to the search backend: the JSON-like tree of
 * Python dicts, lists, strings and numbers the query classes build.
 */
module Json {
  import opened Wrappers
  import Dict

  datatype Json =
    | JObj(members: Dict.Assoc<Json>)
    | JArr(items: seq<Json>)
    | JStr(str: string)
    | JInt(num: int)
    | JReal(r: real)

  /** A list of strings. */
  function Strings(ss: seq<string>): (r: seq<Json>)
    ensures |r| == |ss| && forall i :: 0 <= i < |ss| ==> r[i] == JStr(ss[i])
  {
    seq(|ss|, i requires 0 <= i < |ss| => JStr(ss[i]))
  }

  /** `o[key]` on a dict: None when `o` is not a dict or has no such key. */
  function Get(o: Json, key: string): Option<Json> {
    if o.JObj? then Dict.Get(o.members, key) else None
  }

  /** `key in o`. */
  predicate Has(o: Json, key: string) {
    Get(o, key).Some?
  }

  /** The keys of a dict; empty for anything else. */
  function KeySet(o: Json): set<string> {
    if o.JObj? then Dict.Keys(o.members) else {}
  }

  /** `o[key] = v` on a dict. */
  function Put(o: Json, key: string, v: Json): (r: Json)
    requires o.JObj?
    ensures r.JObj?
    ensures Get(r, key) == Some(v)
    ensures forall k :: k != key ==> Get(r, k) == Get(o, k)
  {
    JObj(Dict.Put(o.members, key, v))
  }

  /** Assigning in a dict object assigns in its members. */
  lemma PutMembers(o: Json, key: string, v: Json)
    requires o.JObj?
    ensures Put(o, key, v) == JObj(Dict.Put(o.members, key, v))
  { }

  /** `o[p0][p1]...[pn]`, None where Python raises KeyError or TypeError. */
  function GetPath(o: Json, path: seq<string>): Option<Json>
    decreases |path|
  {
    if path == [] then Some(o)
    else match Get(o, path[0])
      case None => None
      case Some(child) => GetPath(child, path[1..])
  }

  /** `{a: {b: v}}[a][b]` is `v`. */
  lemma GetPathNested(a: string, b: string, v: Json)
    ensures GetPath(JObj([(a, JObj([(b, v)]))]), [a, b]) == Some(v)
  {
    var inner := JObj([(b, v)]);
    assert Get(JObj([(a, inner)]), a) == Some(inner);
    assert Get(inner, b) == Some(v);
    assert [a, b][1..] == [b] && [b][1..] == [];
    assert GetPath(inner, [b]) == GetPath(v, []);
  }

  /** One step of a path assignment: assign below the child, then put the new child back. */
  lemma SetPathStep(o: Json, path: seq<string>, v: Json, child: Json, c: Json)
    requires o.JObj? && |path| > 1
    requires Get(o, path[0]) == Some(child) && SetPath(child, path[1..], v) == Some(c)
    ensures SetPath(o, path, v) == Some(Put(o, path[0], c))
  { }

  /**
   * The statement `o[p0][p1]...[pn] = v`: every key but the last is read
   * (KeyError when missing, TypeError when not a dict) and the last one is
   * assigned. None stands for the raised exception.
   */
  function SetPath(o: Json, path: seq<string>, v: Json): (r: Option<Json>)
    requires |path| >= 1
    ensures r.Some? ==> r.value.JObj?
    decreases |path|
  {
    if !o.JObj? then None
    else if |path| == 1 then Some(Put(o, path[0], v))
    else match Get(o, path[0])
      case None => None
      case Some(child) =>
        match SetPath(child, path[1..], v)
        case None => None
        case Some(c) => Some(Put(o, path[0], c))
  }

  /** A path assignment succeeds exactly when every dict on the way to the last key exists. */
  lemma {:induction false} SetPathDefined(o: Json, path: seq<string>, v: Json)
    requires |path| >= 1
    ensures SetPath(o, path, v).Some? <==>
            (GetPath(o, path[..|path| - 1]).Some? && GetPath(o, path[..|path| - 1]).value.JObj?)
  {
    if o.JObj? && |path| > 1 {
      assert path[..|path| - 1][0] == path[0];
      assert path[..|path| - 1][1..] == path[1..][..|path[1..]| - 1];
      match Get(o, path[0]) {
        case None =>
        case Some(child) => SetPathDefined(child, path[1..], v);
      }
    }
  }

  /**
   * After a successful path assignment the path reads back the value, and
   * the other top-level keys are as before.
   */
  lemma {:induction false} SetPathThenGet(o: Json, path: seq<string>, v: Json)
    requires |path| >= 1 && SetPath(o, path, v).Some?
    ensures GetPath(SetPath(o, path, v).value, path) == Some(v)
    ensures forall k :: k != path[0] ==> Get(SetPath(o, path, v).value, k) == Get(o, k)
  {
    if |path| > 1 {
      var child := Get(o, path[0]).value;
      SetPathThenGet(child, path[1..], v);
    }
  }
}
