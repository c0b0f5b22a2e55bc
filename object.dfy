/** Heap objects, the intrusive object list and string interning of
    src/object.c. The VM carries the pieces of `au3VM` (src/vm.h) the file
    uses: the head of the object list (`gc->objects`), the interning table
    (`vm->strings`) and the value stack. */
module Objects {
  import opened LibC
  import Values

  /** `hash_string(chars, length, ignorecase)`. Its definition lives outside
      src/object.c, so every operation that hashes takes it as a parameter. */
  type Hasher = (seq<char>, bool) -> bv32

  /** The `src_t *` a function's chunk is initialised from. */
  type SourceId = nat

  /** `otype_t`. `OtOther` is a tag none of the switches in object.c name. */
  datatype ObjType = OtStr | OtFun | OtMap | OtOther(code: int)

  /** `val_t`: a scalar as in value.c, or a reference to a heap object
      (`VAL_OBJ`). */
  datatype Val = Scalar(v: Values.Value) | ObjRef(obj: Object)

  /** `VAL_NULL`. */
  const ValNull: Val := Scalar(Values.Null)

  /** A function's compiled-code unit: initialised from a source, or released
      by `chunk_free`. */
  datatype Chunk = Chunk(source: SourceId) | FreedChunk

  /** The fields that follow the object header, by type. `Unset` is the state
      `allocObj` hands back before the type's own constructor fills them. A
      map's `hashLive` records whether its `hash` member is initialised. */
  datatype Body =
    | Unset
    | StrBody(length: int, chars: array<char>, hash: bv32)
    | FunBody(arity: int, name: Object?, chunk: Chunk)
    | MapBody(hashLive: bool, table: map<Object, Val>)

  /** `obj_t` with the fields of `str_t`, `fun_t` and `map_t` behind it. */
  class Object {
    const tag: ObjType
    var next: Object?
    var body: Body

    /** Obtaining the memory and stamping the type tag. */
    constructor (tag: ObjType)
      ensures this.tag == tag && next == null && body == Unset
    {
      this.tag := tag;
      next := null;
      body := Unset;
    }
  }

  /** The body an object's tag promises: the cast in every switch of object.c
      relies on it. A string's length fits its buffer and a function's name is
      a string. */
  ghost predicate WellTagged(o: Object)
    reads o
  {
    match o.tag
    case OtStr => o.body.StrBody? && 0 <= o.body.length <= o.body.chars.Length
    case OtFun => o.body.FunBody? && (o.body.name != null ==> o.body.name.tag == OtStr)
    case OtMap => o.body.MapBody?
    case OtOther(_) => true
  }

  /** The bytes `str_copy` stores: lowered when case is ignored. */
  function Fold(bytes: seq<char>, ignorecase: bool): (r: seq<char>)
    ensures |r| == |bytes|
    ensures ignorecase ==> forall i :: 0 <= i < |r| ==> !IsUpper(r[i])
    ensures !ignorecase ==> r == bytes
  {
    if ignorecase then Lowered(bytes) else bytes
  }

  /** Folding what was folded with the same flag changes nothing: the bytes a
      copied string holds are already in the form a second copy would store. */
  lemma FoldIdempotent(bytes: seq<char>, ignorecase: bool)
    ensures Fold(Fold(bytes, ignorecase), ignorecase) == Fold(bytes, ignorecase)
  {
    if ignorecase {
      LoweredIdempotent(bytes);
    }
  }

  /** A copied buffer (folded bytes and a terminator) denotes, as a C string,
      the folded bytes up to their first NUL: `%s` and `strlen` see the copy
      as they saw the original. */
  lemma CopiedText(bytes: seq<char>, ignorecase: bool)
    ensures CText(Fold(bytes, ignorecase) + ['\0']) == Fold(CText(bytes), ignorecase)
  {
    if ignorecase {
      LoweredKeepsText(bytes);
    }
    TerminatorKeepsText(Fold(bytes, ignorecase));
  }

  /** The buffer `str_copy` builds on a miss: `length + 1` fresh characters,
      the caller's bytes and a NUL, each byte lowered in place afterwards
      when case is ignored. */
  method CopyChars(chars: seq<char>, length: int, ignorecase: bool) returns (heapChars: array<char>)
    requires 0 <= length <= |chars|
    ensures fresh(heapChars) && heapChars.Length == length + 1
    ensures heapChars[..] == Fold(chars[..length], ignorecase) + ['\0']
  {
    heapChars := new char[length + 1];
    // the caller's bytes first
    forall i | 0 <= i < length {
      heapChars[i] := chars[i];
    }
    heapChars[length] := '\0';
    if ignorecase {
      for i := 0 to length
        invariant forall k :: 0 <= k < i ==> heapChars[k] == ToLower(chars[k])
        invariant forall k :: i <= k < length ==> heapChars[k] == chars[k]
        invariant heapChars[length] == '\0'
      {
        heapChars[i] := ToLower(heapChars[i]);
      }
    }
    assert heapChars[..length] == Fold(chars[..length], ignorecase);
  }

  /** `obj_typeof`. */
  function ObjTypeof(o: Object): (r: string)
    ensures r == "str" <==> o.tag == OtStr
    ensures r == "fn" <==> o.tag == OtFun
    ensures r == "obj" <==> !(o.tag == OtStr || o.tag == OtFun)
  {
    match o.tag
    case OtStr => "str"
    case OtFun => "fn"
    case _ => "obj"
  }

  /** `obj_print`: the text printed for an object. A string prints its first
      `length` characters, up to a NUL (`%.*s`); a function prints `<script>`
      without a name and `fn: ` and the name's text (`%s`) with one. Maps and
      other objects print their address; `pointerText` is the `%p` rendering
      of it, which depends on the address and is not modelled. */
  function ObjPrint(o: Object, pointerText: string): (r: string)
    requires WellTagged(o)
    requires o.body.FunBody? && o.body.name != null ==> WellTagged(o.body.name)
    reads o, if o.body.StrBody? then {o.body.chars} else {}
    reads if o.body.FunBody? && o.body.name != null then {o.body.name} else {}
    reads if o.body.FunBody? && o.body.name != null && o.body.name.body.StrBody?
          then {o.body.name.body.chars} else {}
    ensures o.tag == OtStr ==>
      && r <= o.body.chars[..o.body.length] && '\0' !in r
      && (|r| < o.body.length ==> o.body.chars[|r|] == '\0')
    ensures o.tag == OtFun ==> (r == "<script>" <==> o.body.name == null)
    ensures o.tag == OtFun && o.body.name != null ==>
      && |r| >= 4 && r[..4] == "fn: "
      && r[4..] <= o.body.name.body.chars[..] && '\0' !in r[4..]
      && (|r| - 4 < o.body.name.body.chars.Length ==> o.body.name.body.chars[|r| - 4] == '\0')
    ensures o.tag == OtMap ==> r == "map: " + pointerText
    ensures o.tag.OtOther? ==> r == "obj: " + pointerText
  {
    match o.tag
    case OtStr => CText(o.body.chars[..o.body.length])
    case OtFun =>
      if o.body.name == null then "<script>"
      else
        var text := "fn: " + CText(o.body.name.body.chars[..]);
        assert text[0] != "<script>"[0];
        text
    case OtMap => "map: " + pointerText
    case OtOther(_) => "obj: " + pointerText
  }

  /** The state of one VM instance that object.c reads and writes. */
  class VM {
    /** `gc->objects`: the head of the intrusive list of every heap object. */
    var objects: Object?
    /** The objects of that list, head first. */
    ghost var heap: seq<Object>
    /** `vm->strings`: the interning table, a set keyed by string object whose
        values are only markers. */
    var strings: map<Object, Val>
    /** `vm->stack` up to `vm->top`. */
    var stack: seq<Val>
    /** Buffers and objects handed back to the allocator with `free`/`FREE`. */
    ghost var released: set<object>

    /** Following `next` from `objects` visits `heap` in order and ends at
        null. */
    ghost predicate ListValid()
      reads this`objects, this`heap, heap
    {
      && (objects == null <==> heap == [])
      && (heap != [] ==> objects == heap[0] && heap[|heap| - 1].next == null)
      && (forall i :: 0 <= i < |heap| - 1 ==> heap[i].next == heap[i + 1])
    }

    /** No object appears twice in a well-formed list: a repeat would send
        `next` round a cycle instead of reaching null. */
    lemma {:induction false} ListHasNoRepeats(i: int, j: int)
      requires ListValid()
      requires 0 <= i < j < |heap|
      ensures heap[i] != heap[j]
      decreases |heap| - j
    {
      assert heap[i].next == heap[i + 1];
      if j < |heap| - 1 {
        ListHasNoRepeats(i + 1, j + 1);
      }
    }

    /** The object list is well formed, every listed object carries the body
        its tag promises, and every interned string is a listed string object
        registered with the null marker. */
    ghost predicate Valid()
      reads this`objects, this`heap, this`strings, heap
    {
      && ListValid()
      && (forall o :: o in heap ==> WellTagged(o))
      && (forall s :: s in strings ==> s in heap && s.tag == OtStr && strings[s] == ValNull)
    }

    /** A fresh VM: no objects, nothing interned, an empty stack. */
    constructor ()
      ensures Valid()
      ensures heap == [] && strings == map[] && stack == [] && released == {}
    {
      objects := null;
      heap := [];
      strings := map[];
      stack := [];
      released := {};
    }

    /** `vm_push`: `value` becomes the top of the stack. */
    method Push(value: Val)
      requires Valid()
      modifies this
      ensures Valid()
      ensures stack == old(stack) + [value]
      ensures objects == old(objects) && heap == old(heap) && strings == old(strings)
      ensures released == old(released)
    {
      stack := stack + [value];
    }

    /** `vm_pop`: removes and returns the top of the stack. */
    method Pop() returns (value: Val)
      requires Valid()
      requires stack != []
      modifies this
      ensures Valid()
      ensures value == old(stack)[|old(stack)| - 1]
      ensures stack == old(stack)[..|old(stack)| - 1]
      ensures objects == old(objects) && heap == old(heap) && strings == old(strings)
      ensures released == old(released)
    {
      value := stack[|stack| - 1];
      stack := stack[..|stack| - 1];
    }

    /** `allocObj`: a new object stamped with `tag` becomes the head of the
        object list, with the previous list as its tail. */
    method AllocObj(tag: ObjType) returns (o: Object)
      requires ListValid()
      modifies this
      ensures ListValid()
      ensures fresh(o) && o.tag == tag && o.body == Unset
      ensures objects == o && o.next == old(objects)
      ensures heap == [o] + old(heap)
      ensures strings == old(strings) && stack == old(stack) && released == old(released)
    {
      o := new Object(tag);
      o.next := objects;
      objects := o;
      heap := [o] + heap;
    }

    /** `allocStr`: a new string object with exactly the given length, buffer
        and hash, registered in the interning table with the null marker. */
    method AllocStr(chars: array<char>, length: int, hash: bv32) returns (s: Object)
      requires Valid()
      requires 0 <= length <= chars.Length
      modifies this
      ensures Valid()
      ensures fresh(s) && s.tag == OtStr && s.body == StrBody(length, chars, hash)
      ensures heap == [s] + old(heap)
      ensures strings == old(strings)[s := ValNull] && |strings| == |old(strings)| + 1
      ensures stack == old(stack) && released == old(released)
    {
      s := AllocObj(OtStr);
      s.body := StrBody(length, chars, hash);
      // registered in the interning table with the null marker
      strings := strings[s := ValNull];
    }

    /** `str_take`: interns a buffer the caller hands over. `interned` is the
        answer of the interning table's lookup (`tab_findstr`, not part of
        this model) for these bytes and their case-sensitive hash: null or a
        string already in the table. On a hit the buffer is freed and the
        interned string returned; on a miss the buffer itself becomes the new
        string's characters. */
    method StrTake(chars: array<char>, length: int, hasher: Hasher, interned: Object?) returns (s: Object)
      requires Valid()
      requires 0 <= length <= chars.Length
      requires interned != null ==> interned in strings
      modifies this
      ensures Valid()
      ensures stack == old(stack)
      ensures interned != null ==>
        && s == interned
        && heap == old(heap) && strings == old(strings)
        && released == old(released) + {chars}
      ensures interned == null ==>
        && fresh(s) && s.tag == OtStr
        && s.body == StrBody(length, chars, hasher(chars[..length], false))
        && heap == [s] + old(heap)
        && strings == old(strings)[s := ValNull] && |strings| == |old(strings)| + 1
        && released == old(released)
    {
      var hash := hasher(chars[..length], false);
      if interned != null {
        // the handed-over buffer is released
        released := released + {chars};
        return interned;
      }
      s := AllocStr(chars, length, hash);
    }

    /** `str_copy`: interns bytes the caller keeps. `interned` is the lookup's
        answer for the caller's bytes and their hash with `ignorecase`. On a
        hit nothing is allocated. On a miss the bytes are copied into a fresh
        buffer of `length + 1` characters ending in NUL, lowered first when
        case is ignored, and the copy becomes a new string whose hash is the
        one taken from the caller's bytes. */
    method StrCopy(chars: seq<char>, length: int, ignorecase: bool, hasher: Hasher, interned: Object?)
      returns (s: Object)
      requires Valid()
      requires 0 <= length <= |chars|
      requires interned != null ==> interned in strings
      modifies this
      ensures Valid()
      ensures stack == old(stack) && released == old(released)
      ensures interned != null ==> s == interned && heap == old(heap) && strings == old(strings)
      ensures interned == null ==>
        && fresh(s) && s.tag == OtStr && s.body.StrBody?
        && fresh(s.body.chars) && s.body.length == length
        && s.body.chars[..] == Fold(chars[..length], ignorecase) + ['\0']
        && s.body.hash == hasher(chars[..length], ignorecase)
        && heap == [s] + old(heap)
        && strings == old(strings)[s := ValNull] && |strings| == |old(strings)| + 1
    {
      var hash := hasher(chars[..length], ignorecase);
      if interned != null {
        return interned;
      }
      var heapChars := CopyChars(chars, length, ignorecase);
      s := AllocStr(heapChars, length, hash);
    }

    /** `fun_new`: a new function of arity 0, without a name, whose chunk is
        initialised from `source`. */
    method FunNew(source: SourceId) returns (f: Object)
      requires Valid()
      modifies this
      ensures Valid()
      ensures fresh(f) && f.tag == OtFun && f.body == FunBody(0, null, Chunk(source))
      ensures heap == [f] + old(heap)
      ensures strings == old(strings) && stack == old(stack) && released == old(released)
    {
      f := AllocObj(OtFun);
      f.body := FunBody(0, null, Chunk(source));
    }

    /** `map_new`: a new map with an initialised hash and an empty table. */
    method MapNew() returns (m: Object)
      requires Valid()
      modifies this
      ensures Valid()
      ensures fresh(m) && m.tag == OtMap && m.body == MapBody(true, map[])
      ensures heap == [m] + old(heap)
      ensures strings == old(strings) && stack == old(stack) && released == old(released)
    {
      m := AllocObj(OtMap);
      m.body := MapBody(true, map[]);
    }

    /** `tab_set` on a map's table, reduced to what `map_set` relies on: the
        key now maps to the value and every other entry stays. */
    method TableSet(m: Object, key: Object, value: Val)
      requires Valid()
      requires m.tag == OtMap && m.body.MapBody?
      modifies m`body
      ensures Valid()
      ensures m.body == old(m.body).(table := old(m.body.table)[key := value])
    {
      m.body := m.body.(table := m.body.table[key := value]);
    }

    /** `map_set`: interns the NUL-terminated `key` case-sensitively (through
        `str_copy`, whose lookup answers `interned`), then sets that string to
        `value` in the map's table while both sit on the stack, and pops them
        again. */
    method MapSet(m: Object, key: seq<char>, value: Val, hasher: Hasher, interned: Object?)
      requires Valid()
      requires m.tag == OtMap && m.body.MapBody?
      requires '\0' in key
      requires interned != null ==> interned in strings
      modifies this, m`body
      ensures Valid()
      ensures stack == old(stack) && released == old(released)
      ensures m.body.MapBody? && m.body.hashLive == old(m.body.hashLive)
      ensures interned != null ==>
        && heap == old(heap) && strings == old(strings)
        && m.body.table == old(m.body.table)[interned := value]
      ensures interned == null ==>
        && |heap| == |old(heap)| + 1 && heap[1..] == old(heap)
        && fresh(heap[0]) && heap[0].tag == OtStr && heap[0].body.StrBody?
        && heap[0].body.length == |CText(key)| && fresh(heap[0].body.chars)
        && heap[0].body.chars[..] == CText(key) + ['\0']
        && heap[0].body.hash == hasher(CText(key), false)
        && strings == old(strings)[heap[0] := ValNull]
        && m.body.table == old(m.body.table)[heap[0] := value]
    {
      var length := |CText(key)|;
      assert key[..length] == CText(key);
      var field := StrCopy(key, length, false, hasher, interned);
      assert field != m;
      ghost var text := field.body.chars[..];
      RootedTableSet(m, field, value);
      assert field.body.chars[..] == text;
    }

    /** The write at the end of `map_set`: value and key are pushed, so that
        a collection triggered inside `tab_set` would see them as roots, the
        table is written, and both are popped again. */
    method RootedTableSet(m: Object, field: Object, value: Val)
      requires Valid()
      requires m.tag == OtMap && m.body.MapBody?
      modifies this, m`body
      ensures Valid()
      ensures objects == old(objects) && heap == old(heap) && strings == old(strings)
      ensures stack == old(stack) && released == old(released)
      ensures m.body == old(m.body).(table := old(m.body.table)[field := value])
    {
      Push(value);
      Push(ObjRef(field));
      assert stack[|stack| - 2..] == [value, ObjRef(field)];
      TableSet(m, field, value);
      var _ := Pop();
      var _ := Pop();
    }

    /** `obj_free`: releases an object with what it exclusively owns: a
        string's buffer, a function's chunk, a map's hash and table. A tag no
        case names is left alone. */
    method ObjFree(o: Object)
      requires WellTagged(o)
      modifies this, o`body
      ensures objects == old(objects) && heap == old(heap)
      ensures strings == old(strings) && stack == old(stack)
      ensures o.tag == OtStr ==> o.body == old(o.body) && released == old(released) + {o.body.chars, o}
      ensures o.tag == OtFun ==> o.body == old(o.body).(chunk := FreedChunk) && released == old(released) + {o}
      ensures o.tag == OtMap ==> o.body == MapBody(false, map[]) && released == old(released) + {o}
      ensures o.tag.OtOther? ==> o.body == old(o.body) && released == old(released)
    {
      match o.tag
      case OtStr =>
        released := released + {o.body.chars, o};
      case OtFun =>
        // the chunk is released
        o.body := o.body.(chunk := FreedChunk);
        released := released + {o};
      case OtMap =>
        // the hash and the table are released
        o.body := MapBody(false, map[]);
        released := released + {o};
      case OtOther(_) =>
    }
  }
}
