/**
 * The Python object graph a reference is evaluated against, as an arena:
 * node objects live in a map from node id to record, and every other value
 * (None, an int, a str, a list, a dict) is an immutable value. A node record
 * holds the node's attributes and the id of its parent, if it has one.
 *
 * The two Python lookups the evaluator performs are modelled here:
 * `getattr(obj, name)` (which also serves `obj.parent`) and `obj[key]`.
 * Their failures are the Python exceptions they raise.
 */
module ObjectGraph {
  import opened Wrappers

  type NodeId = nat

  /** A subscript: `int(k)` for an all-digit key, otherwise a str. */
  datatype Key = IntKey(index: int) | StrKey(text: string)

  datatype Value =
    | NoneValue
    | Int(number: int)
    | Str(chars: string)
    | Node(id: NodeId)
    | List(items: seq<Value>)
    | Dict(entries: map<Key, Value>)

  datatype NodeRecord = NodeRecord(attrs: map<string, Value>, parent: Option<NodeId>)

  type Graph = map<NodeId, NodeRecord>

  /** The exceptions that leave reference evaluation. */
  datatype Error =
    | AttributeError(name: string)
    | KeyError(key: Key)
    | IndexError(index: int)
    | TypeError
      /** ValueError raised by `str.index` when no `]` closes a `[` */
    | SubstringNotFound
      /** ValueError: the string is not a reference */
    | NotAReference(reference: string)
      /** ValueError: the reference does not resolve; carries the original cause */
    | InvalidReference(reference: string, cause: Error)

  datatype Result<+T> = Ok(value: T) | Err(error: Error)

  const ParentAttr := "parent"

  /**
   * `getattr(v, name)`. On a node, the name "parent" reads the parent link
   * (absent on a root); any other name reads the node's attribute map.
   * Values that are not nodes have no attributes in this model.
   */
  function GetAttr(g: Graph, v: Value, name: string): (r: Result<Value>)
    ensures r.Err? ==> r.error == AttributeError(name)
    ensures r.Ok? ==> v.Node? && v.id in g
    ensures name == ParentAttr ==>
      (r.Ok? <==> v.Node? && v.id in g && g[v.id].parent.Some?) &&
      (r.Ok? ==> r.value == Node(g[v.id].parent.value))
    ensures name != ParentAttr ==>
      (r.Ok? <==> v.Node? && v.id in g && name in g[v.id].attrs) &&
      (r.Ok? ==> r.value == g[v.id].attrs[name])
  {
    if !v.Node? || v.id !in g then Err(AttributeError(name))
    else if name == ParentAttr then
      match g[v.id].parent
      case None => Err(AttributeError(name))
      case Some(p) => Ok(Node(p))
    else if name in g[v.id].attrs then Ok(g[v.id].attrs[name])
    else Err(AttributeError(name))
  }

  /** Python's reading of a sequence index: negative indices count from the end. */
  function SequenceIndex(length: nat, i: int): (r: Option<nat>)
    ensures r.Some? ==> r.value < length
    ensures r.Some? <==> 0 <= length + i && i < length
    ensures r.Some? ==> (if i >= 0 then r.value == i else r.value == length + i)
  {
    if 0 <= i < length then Some(i)
    else if 0 <= length + i && i < 0 then Some(length + i)
    else None
  }

  /**
   * `v[key]`. A list or a str takes an int index (IndexError when out of
   * range, TypeError for a str key); a dict takes any key (KeyError when
   * absent); nodes, ints and None are not subscriptable (TypeError).
   */
  function GetItem(v: Value, key: Key): (r: Result<Value>)
    ensures r.Err? && r.error.KeyError? ==> v.Dict? && key !in v.entries && r.error.key == key
    ensures r.Err? && r.error.IndexError? ==> (v.List? || v.Str?) && key.IntKey? && r.error.index == key.index
    ensures r.Err? ==> r.error.KeyError? || r.error.IndexError? || r.error == TypeError
    ensures v.Dict? ==> (r.Ok? <==> key in v.entries) && (r.Ok? ==> r.value == v.entries[key])
    ensures v.List? && key.IntKey? ==>
      var i := SequenceIndex(|v.items|, key.index);
      (r.Ok? <==> i.Some?) && (r.Ok? ==> r.value == v.items[i.value])
    ensures v.Dict? && key !in v.entries ==> r == Err(KeyError(key))
    ensures v.List? && key.IntKey? && SequenceIndex(|v.items|, key.index).None? ==> r == Err(IndexError(key.index))
    ensures v.Str? && key.IntKey? ==>
      var i := SequenceIndex(|v.chars|, key.index);
      (i.None? ==> r == Err(IndexError(key.index))) && (i.Some? ==> r == Ok(Str([v.chars[i.value]])))
    ensures (v.List? || v.Str?) && key.StrKey? ==> r == Err(TypeError)
    ensures !(v.List? || v.Str? || v.Dict?) ==> r == Err(TypeError)
  {
    match v
    case List(items) =>
      if !key.IntKey? then Err(TypeError)
      else (
        match SequenceIndex(|items|, key.index)
        case None => Err(IndexError(key.index))
        case Some(i) => Ok(items[i]))
    case Str(chars) =>
      if !key.IntKey? then Err(TypeError)
      else (
        match SequenceIndex(|chars|, key.index)
        case None => Err(IndexError(key.index))
        case Some(i) => Ok(Str([chars[i]])))
    case Dict(entries) =>
      if key in entries then Ok(entries[key]) else Err(KeyError(key))
    case _ => Err(TypeError)
  }
}
