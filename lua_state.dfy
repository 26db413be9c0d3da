/** The part of the Lua C API that the string handle uses, over an abstract Lua state:
    the evaluation stack as a sequence of values and the registry as a map from the
    integer keys that references hold to the values they keep alive. */
module LuaState {
  import opened Bytes

  // The type tags `lua_type` reports (lua.h).
  const LUA_TNONE: int := -1
  const LUA_TNIL: int := 0
  const LUA_TBOOLEAN: int := 1
  const LUA_TLIGHTUSERDATA: int := 2
  const LUA_TNUMBER: int := 3
  const LUA_TSTRING: int := 4
  const LUA_TTABLE: int := 5
  const LUA_TFUNCTION: int := 6
  const LUA_TUSERDATA: int := 7
  const LUA_TTHREAD: int := 8

  /** A Lua value. Only strings carry their content; the other kinds are told apart by an
      identity, which is all the string handle ever observes of them. */
  datatype Value =
    | Nil
    | Boolean(b: bool)
    | LightUserData(address: nat)
    | Number(n: int)
    | Str(content: seq<byte>)
    | Table(id: nat)
    | Function(id: nat)
    | UserData(id: nat)
    | Thread(id: nat)

  /** The type tag of a value. */
  function TypeOf(v: Value): (t: int)
    ensures LUA_TNIL <= t <= LUA_TTHREAD
    ensures t == LUA_TSTRING <==> v.Str?
    ensures t == LUA_TNIL <==> v.Nil?
  {
    match v
    case Nil => LUA_TNIL
    case Boolean(_) => LUA_TBOOLEAN
    case LightUserData(_) => LUA_TLIGHTUSERDATA
    case Number(_) => LUA_TNUMBER
    case Str(_) => LUA_TSTRING
    case Table(_) => LUA_TTABLE
    case Function(_) => LUA_TFUNCTION
    case UserData(_) => LUA_TUSERDATA
    case Thread(_) => LUA_TTHREAD
  }

  /** One Lua state: its evaluation stack (bottom first) and its registry. */
  class Lua {
    var stack: seq<Value>
    var registry: map<int, Value>

    constructor ()
      ensures stack == [] && registry == map[]
    {
      stack := [];
      registry := map[];
    }

    /** The value a registry key refers to; `lua_rawgeti` gives nil for an absent key. */
    function RegistryValue(key: int): Value
      reads this
    {
      if key in registry then registry[key] else Nil
    }

    /** An index a query may be given: a positive one, possibly above the top, or a
        negative one counting down from the top and no deeper than the stack. */
    predicate AcceptableIndex(index: int)
      reads this
    {
      0 < index || -|stack| <= index < 0
    }

    /** An index that names a slot of the stack. */
    predicate ValidIndex(index: int)
      reads this
    {
      index != 0 && -|stack| <= index <= |stack|
    }

    /** The zero-based position of the slot a valid index names: 1 is the bottom, -1 the top. */
    function Position(index: int): (p: nat)
      reads this
      requires ValidIndex(index)
      ensures p < |stack|
      ensures index < 0 ==> p == |stack| + index
      ensures 0 < index ==> p == index - 1
    {
      if 0 < index then index - 1 else |stack| + index
    }

    /** `lua_gettop`: the number of values on the stack. */
    method GetTop() returns (n: nat)
      ensures n == |stack|
    {
      n := |stack|;
    }

    /** `push_ref`, that is `lua_rawgeti(L, LUA_REGISTRYINDEX, key)`: pushes the value the
        registry holds under the key; the registry itself is only read. */
    method PushRef(key: int)
      modifies this
      ensures stack == old(stack) + [old(RegistryValue(key))]
      ensures registry == old(registry)
    {
      stack := stack + [RegistryValue(key)];
    }

    /** `lua_type`: the type tag of the value at an index, or LUA_TNONE above the top. */
    method Type(index: int) returns (t: int)
      requires AcceptableIndex(index)
      ensures ValidIndex(index) ==> t == TypeOf(stack[Position(index)])
      ensures !ValidIndex(index) ==> t == LUA_TNONE
    {
      if ValidIndex(index) {
        t := TypeOf(stack[Position(index)]);
      } else {
        t := LUA_TNONE;
      }
    }

    /** `lua_tolstring` on a string: the buffer Lua stores for it (content, then the
        terminator) and its length, which leaves the terminator out. */
    method ToLString(index: int) returns (data: seq<byte>, size: nat)
      requires ValidIndex(index) && stack[Position(index)].Str?
      ensures data == NulTerminated(stack[Position(index)].content)
      ensures size == |stack[Position(index)].content|
      ensures size < |data| && data[size] == NUL
    {
      var content := stack[Position(index)].content;
      data := NulTerminated(content);
      size := |content|;
    }

    /** `lua_pop`: removes `n` values from the top of the stack. */
    method Pop(n: nat)
      requires n <= |stack|
      modifies this
      ensures stack == old(stack)[..|old(stack)| - n]
      ensures registry == old(registry)
    {
      stack := stack[..|stack| - n];
    }
  }
}
