/**
 JSON Patch (section 4 of RFC 6902): `patch` and its six operations.

 A reference into a document is a pointer that resolves in it; writing through the
 reference is `Put`.
 */
module Patch {
  import opened Bytes
  import opened Results
  import opened Json
  import P = Pointer

  type Path = seq<Text>

  const DASH: Text := [0x2D]

  const OP: Text := [0x6F, 0x70]
  const PATH: Text := [0x70, 0x61, 0x74, 0x68]
  const FROM: Text := [0x66, 0x72, 0x6F, 0x6D]
  const VALUE: Text := [0x76, 0x61, 0x6C, 0x75, 0x65]
  const ADD: Text := [0x61, 0x64, 0x64]
  const REMOVE: Text := [0x72, 0x65, 0x6D, 0x6F, 0x76, 0x65]
  const REPLACE: Text := [0x72, 0x65, 0x70, 0x6C, 0x61, 0x63, 0x65]
  const MOVE: Text := [0x6D, 0x6F, 0x76, 0x65]
  const COPY: Text := [0x63, 0x6F, 0x70, 0x79]
  const TEST: Text := [0x74, 0x65, 0x73, 0x74]

  // ----- resolving pointers: get_checked

  function ArrayIndex(token: Text): Result<int> {
    if |token| > 1 && token[0] == P.ZERO then Err(DomainError) else Stoi(token)
  }

  /** One step of `get_checked`. */
  function Child(j: Json, token: Text): Result<Json> {
    match j
    case Object(m) => if token in m then Ok(m[token]) else Err(OutOfRange)
    case Array(es) =>
      if token == DASH then Err(OutOfRange)
      else
        var i :- ArrayIndex(token);
        if 0 <= i < |es| then Ok(es[i]) else Err(OutOfRange)
    case _ => Err(OutOfRange)
  }

  function SetChild(j: Json, token: Text, v: Json): Json
    requires Child(j, token).Ok?
  {
    match j
    case Object(m) => Object(m[token := v])
    case Array(es) => Array(es[ArrayIndex(token).value := v])
  }

  /** `at(ptr)`: the value a pointer refers to. */
  function Resolve(j: Json, ptr: Path): Result<Json> {
    if ptr == [] then Ok(j)
    else
      var child :- Child(j, ptr[0]);
      Resolve(child, ptr[1..])
  }

  /** `at(ptr) = v` */
  function Put(j: Json, ptr: Path, v: Json): Json
    requires Resolve(j, ptr).Ok?
  {
    if ptr == [] then v
    else SetChild(j, ptr[0], Put(Child(j, ptr[0]).value, ptr[1..], v))
  }

  method GetChecked(j: Json, ptr: Path) returns (r: Result<Json>)
    ensures r == Resolve(j, ptr)
  {
    var current := j;
    var i := 0;
    assert ptr[0..] == ptr;
    while i < |ptr|
      invariant 0 <= i <= |ptr|
      invariant Resolve(j, ptr) == Resolve(current, ptr[i..])
    {
      var child := Child(current, ptr[i]);
      if child.Err? {
        return Err(child.error);
      }
      current := child.value;
      assert ptr[i..][1..] == ptr[i + 1..];
      i := i + 1;
    }
    return Ok(current);
  }

  // ----- the operations

  /** What "add" does to the parent of the added value. */
  function AddChild(parent: Json, last: Text, v: Json): Result<Json> {
    match parent
    case Null => Ok(Object(map[last := v]))
    case Object(m) => Ok(Object(m[last := v]))
    case Array(es) =>
      if last == DASH then Ok(Array(es + [v]))
      else
        var i :- Stoi(last);
        if 0 <= i <= |es| then Ok(Array(es[..i] + [v] + es[i..])) else Err(OutOfRange)
    case _ => Err(AssertionFailure)
  }

  /** What "remove" does to the parent of the removed value; it leaves a primitive alone. */
  function RemoveChild(parent: Json, last: Text): Result<Json> {
    match parent
    case Object(m) => if last in m then Ok(Object(m - {last})) else Err(OutOfRange)
    case Array(es) =>
      var i :- Stoi(last);
      if 0 <= i < |es| then Ok(Array(es[..i] + es[i + 1..])) else Err(OutOfRange)
    case _ => Ok(parent)
  }

  function Nulls(n: int): seq<Json> {
    if n <= 0 then [] else seq(n, _ => Null)
  }

  /** `get_unchecked` turns null into a container for the token. */
  function Container(j: Json, token: Text): Json {
    if !j.Null? then j else if AllDigits(token) || token == DASH then Array([]) else Object(map[])
  }

  /** `operator[]` with a negative index, which is converted to a size: growing the array
      that far throws, except that -1 makes an empty array grow by nothing, and the access
      is then out of bounds. */
  function BadIndex(i: int, size: nat): Error {
    if i == -1 && size == 0 then Undefined else LengthError
  }

  /** `get_unchecked`, creating what is missing, then an edit of the value it refers to. */
  function Unchecked(j: Json, path: Path, edit: Json -> Result<Json>): Result<Json>
    decreases |path|
  {
    if path == [] then edit(j)
    else
      var token := path[0];
      match Container(j, token)
      case Object(m) =>
        var child :- Unchecked(if token in m then m[token] else Null, path[1..], edit);
        Ok(Object(m[token := child]))
      case Array(es) =>
        var i :- if token == DASH then Ok(|es|) else ArrayIndex(token);
        if i < 0 then Err(BadIndex(i, |es|))
        else
          var grown := es + Nulls(i + 1 - |es|);
          var child :- Unchecked(grown[i], path[1..], edit);
          Ok(Array(grown[i := child]))
      case _ => Err(OutOfRange)
  }

  /** What `get_unchecked` has created when it returns or throws: the nulls it converted
      and the arrays it has grown. */
  function Created(j: Json, path: Path): Json
    decreases |path|
  {
    if path == [] then j
    else
      var token, container := path[0], Container(j, path[0]);
      match container
      case Object(m) => Object(m[token := Created(if token in m then m[token] else Null, path[1..])])
      case Array(es) =>
        var index := if token == DASH then Ok(|es|) else ArrayIndex(token);
        if index.Err? || index.value < 0 then container
        else
          var grown := es + Nulls(index.value + 1 - |es|);
          Array(grown[index.value := Created(grown[index.value], path[1..])])
      case _ => j
  }

  function AddAt(j: Json, parents: Path, last: Text, v: Json): Result<Json> {
    Unchecked(j, parents, parent => AddChild(parent, last, v))
  }

  function Add(doc: Json, ptr: Path, v: Json): Result<Json> {
    if ptr == [] then Ok(v)
    else
      var parents, last := ptr[..|ptr| - 1], ptr[|ptr| - 1];
      if |ptr| > 1 && Child(doc, ptr[0]).Err? then Err(Child(doc, ptr[0]).error)
      else AddAt(doc, parents, last, v)
  }

  function AddFailure(doc: Json, ptr: Path, v: Json): Json
    requires Add(doc, ptr, v).Err?
  {
    if |ptr| > 1 && Child(doc, ptr[0]).Err? then doc else Created(doc, ptr[..|ptr| - 1])
  }

  function Remove(doc: Json, ptr: Path): Result<Json> {
    if ptr == [] then Err(DomainError)
    else
      var parents, last := ptr[..|ptr| - 1], ptr[|ptr| - 1];
      var parent :- Resolve(doc, parents);
      var rest :- RemoveChild(parent, last);
      Ok(Put(doc, parents, rest))
  }

  function Replace(doc: Json, ptr: Path, v: Json): Result<Json> {
    var _ :- Resolve(doc, ptr);
    Ok(Put(doc, ptr, v))
  }

  function Move(doc: Json, from: Path, ptr: Path): Result<Json> {
    var v :- Resolve(doc, from);
    var rest :- Remove(doc, from);
    Add(rest, ptr, v)
  }

  /** `result[ptr] = result.at(from)`: an assignment, not an insertion. */
  function Copy(doc: Json, from: Path, ptr: Path): Result<Json> {
    var v :- Resolve(doc, from);
    Unchecked(doc, ptr, _ => Ok(v))
  }

  /** An index or key out of range is a failed test; other errors are not caught. */
  function Test(doc: Json, ptr: Path, op: Json): Result<Json>
    requires op.Object?
  {
    var found := Resolve(doc, ptr);
    if found == Err(OutOfRange) then Err(DomainError)
    else
      var v :- found;
      var expected :- Member(op, VALUE);
      if Equals(v, expected) then Ok(doc) else Err(DomainError)
  }

  /** `get_value`: a mandatory member of an operation. */
  function Member(op: Json, key: Text): Result<Json>
    requires op.Object?
  {
    if key in op.members then Ok(op.members[key]) else Err(InvalidArgument)
  }

  function TextMember(op: Json, key: Text): Result<Text>
    requires op.Object?
  {
    var v :- Member(op, key);
    if v.String? then Ok(v.s) else Err(InvalidArgument)
  }

  /** One round of the loop of `patch`. An assignment evaluates its right side first, as
      C++17 prescribes. */
  function Apply(doc: Json, op: Json): Result<Json> {
    if !op.Object? then Err(InvalidArgument)
    else
      var name :- TextMember(op, OP);
      var path :- TextMember(op, PATH);
      var ptr :- P.Split(path);
      if name == ADD then
        var v :- Member(op, VALUE);
        Add(doc, ptr, v)
      else if name == REMOVE then Remove(doc, ptr)
      else if name == REPLACE then
        var v :- Member(op, VALUE);
        Replace(doc, ptr, v)
      else if name == MOVE || name == COPY then
        var source :- TextMember(op, FROM);
        var from :- P.Split(source);
        if name == MOVE then Move(doc, from, ptr) else Copy(doc, from, ptr)
      else if name == TEST then Test(doc, ptr, op)
      else Err(InvalidArgument)
  }

  function ApplyAll(doc: Json, ops: seq<Json>): Result<Json>
    decreases |ops|
  {
    if ops == [] then Ok(doc)
    else
      var next :- Apply(doc, ops[0]);
      ApplyAll(next, ops[1..])
  }

  /** `patch` */
  function PatchResult(doc: Json, patch: Json): Result<Json> {
    if patch.Array? then ApplyAll(doc, patch.elems) else Err(InvalidArgument)
  }

  /** The working copy that `patch` edits. */
  class WorkingCopy {
    var result: Json

    constructor (doc: Json)
      ensures result == doc
    {
      result := doc;
    }

    /** `operation_add`. A missing top element leaves the copy alone; a later error leaves
        what was created on the way to it. */
    method OperationAdd(ptr: Path, v: Json) returns (status: Result<()>)
      modifies this
      ensures match Add(old(result), ptr, v)
              case Ok(doc) => status.Ok? && result == doc
              case Err(e) => status == Err(e) && (e != Undefined ==> result == AddFailure(old(result), ptr, v))
    {
      if ptr == [] {
        result := v;
        return Ok(());
      }
      if |ptr| > 1 {
        var top := GetChecked(result, [ptr[0]]);
        if top.Err? {
          return Err(top.error);
        }
      }
      var added := AddAt(result, ptr[..|ptr| - 1], ptr[|ptr| - 1], v);
      if added.Err? {
        result := Created(result, ptr[..|ptr| - 1]);
        return Err(added.error);
      }
      result := added.value;
      return Ok(());
    }

    /** `operation_remove` */
    method OperationRemove(ptr: Path) returns (status: Result<()>)
      modifies this
      ensures match Remove(old(result), ptr)
              case Ok(doc) => status.Ok? && result == doc
              case Err(e) => status == Err(e) && result == old(result)
    {
      if ptr == [] {
        return Err(DomainError);
      }
      var parents, last := ptr[..|ptr| - 1], ptr[|ptr| - 1];
      var parent := GetChecked(result, parents);
      if parent.Err? {
        return Err(parent.error);
      }
      var rest := RemoveChild(parent.value, last);
      if rest.Err? {
        return Err(rest.error);
      }
      result := Put(result, parents, rest.value);
      return Ok(());
    }

    method OperationReplace(ptr: Path, v: Json) returns (status: Result<()>)
      modifies this
      ensures match Replace(old(result), ptr, v)
              case Ok(doc) => status.Ok? && result == doc
              case Err(e) => status == Err(e) && result == old(result)
    {
      var target := GetChecked(result, ptr);
      if target.Err? {
        return Err(target.error);
      }
      result := Put(result, ptr, v);
      return Ok(());
    }

    method OperationCopy(from: Path, ptr: Path) returns (status: Result<()>)
      modifies this
      ensures match Copy(old(result), from, ptr)
              case Ok(doc) => status.Ok? && result == doc
              case Err(e) => status == Err(e)
    {
      var source := GetChecked(result, from);
      var v :- source;
      var copied := Unchecked(result, ptr, _ => Ok(v));
      if copied.Err? {
        result := Created(result, ptr);
        return Err(copied.error);
      }
      result := copied.value;
      return Ok(());
    }

    method OperationTest(ptr: Path, op: Json) returns (status: Result<()>)
      requires op.Object?
      ensures match Test(result, ptr, op)
              case Ok(_) => status.Ok?
              case Err(e) => status == Err(e)
    {
      var found := GetChecked(result, ptr);
      if found == Err(OutOfRange) {
        return Err(DomainError);
      }
      var v :- found;
      var expected :- Member(op, VALUE);
      return if Equals(v, expected) then Ok(()) else Err(DomainError);
    }

    /** One round of the loop of `patch`: reads the members of the operation, then runs it. */
    method Step(op: Json) returns (status: Result<()>)
      modifies this
      ensures match Apply(old(result), op)
              case Ok(doc) => status.Ok? && result == doc
              case Err(e) => status == Err(e)
    {
      if !op.Object? {
        return Err(InvalidArgument);
      }
      var name :- TextMember(op, OP);
      var path :- TextMember(op, PATH);
      var parsed := P.SplitPointer(path);
      var ptr :- parsed;
      if name == ADD {
        var v :- Member(op, VALUE);
        status := OperationAdd(ptr, v);
      } else if name == REMOVE {
        status := OperationRemove(ptr);
      } else if name == REPLACE {
        var v :- Member(op, VALUE);
        status := OperationReplace(ptr, v);
      } else if name == MOVE {
        var source :- TextMember(op, FROM);
        var parsedSource := P.SplitPointer(source);
        var from :- parsedSource;
        var target := GetChecked(result, from);
        var v :- target;
        var _ :- OperationRemove(from);
        status := OperationAdd(ptr, v);
      } else if name == COPY {
        var source :- TextMember(op, FROM);
        var parsedSource := P.SplitPointer(source);
        var from :- parsedSource;
        status := OperationCopy(from, ptr);
      } else if name == TEST {
        status := OperationTest(ptr, op);
      } else {
        return Err(InvalidArgument);
      }
    }
  }

  method PatchDocument(doc: Json, patch: Json) returns (r: Result<Json>)
    ensures r == PatchResult(doc, patch)
  {
    var copy := new WorkingCopy(doc);
    if !patch.Array? {
      return Err(InvalidArgument);
    }
    var i := 0;
    assert patch.elems[0..] == patch.elems;
    while i < |patch.elems|
      invariant 0 <= i <= |patch.elems|
      invariant ApplyAll(doc, patch.elems) == ApplyAll(copy.result, patch.elems[i..])
    {
      assert patch.elems[i..][1..] == patch.elems[i + 1..];
      var status := copy.Step(patch.elems[i]);
      if status.Err? {
        return Err(status.error);
      }
      i := i + 1;
    }
    return Ok(copy.result);
  }
}
