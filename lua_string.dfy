/** `rlua::String`: a read-only handle to a Lua string held through a registry reference.

    The handle's accessors are methods over the Lua state, as in the binding: reading the
    bytes pushes the referenced value, checks its type, reads its buffer and pops it again.
    What they return is specified by the pure functions of this module, and the lemmas
    state what the binding promises of those results. */
module LuaString {
  import opened Wrappers
  import opened Bytes
  import opened Utf8
  import opened LuaState

  /** `Error::FromLuaConversionError`, the one error variant the handle raises. The message
      stands for the text the standard library renders from the UTF-8 failure; the model
      keeps the failure itself. */
  datatype Error = FromLuaConversionError(from: string, to: string, message: Option<Utf8Error>)

  // ---------------------------------------------------------------------------------------
  // The accessors on values.

  /** `as_bytes` on the terminator-inclusive view: everything but its final byte. */
  function StripNul(nulled: seq<byte>): (bytes: seq<byte>)
    requires |nulled| >= 1
    ensures |bytes| == |nulled| - 1
    ensures bytes <= nulled
  {
    nulled[..|nulled| - 1]
  }

  /** `str::from_utf8(bytes).map_err(...)`: the same bytes, reinterpreted as text, when they
      are well-formed UTF-8, and otherwise a conversion error from "string" to "&str". */
  function FromUtf8(bytes: seq<byte>): (r: Result<seq<byte>, Error>)
    ensures r.Ok? <==> WellFormed(bytes)
    ensures r.Ok? ==> r.value == bytes
    ensures r.Err? ==> r.error.from == "string" && r.error.to == "&str" && r.error.message.Some?
  {
    ValidateAcceptsWellFormed(bytes);
    match Validate(bytes)
    case Ok(_) => Ok(bytes)
    case Err(e) => Err(FromLuaConversionError("string", "&str", Some(e)))
  }

  /** The code points of a Rust text value. */
  function Scalars(text: string): (cps: seq<Scalar>)
    ensures |cps| == |text|
    ensures forall i :: 0 <= i < |text| ==> cps[i] == text[i] as int
  {
    seq(|text|, i requires 0 <= i < |text| => text[i] as int)
  }

  /** The text value whose code points are the given scalar values. */
  function Chars(cps: seq<Scalar>): (text: string)
    ensures Scalars(text) == cps
  {
    seq(|cps|, i requires 0 <= i < |cps| => cps[i] as char)
  }

  /** The bytes of a Rust text value (`str::as_bytes`): its UTF-8 encoding. */
  function TextBytes(text: string): seq<byte> {
    Encode(Scalars(text))
  }

  /** The values a handle compares with: anything that implements `AsRef<[u8]>`. */
  datatype ByteLike =
    | RawBytes(bytes: seq<byte>)     // `[u8]`, `Vec<u8>`
    | Text(text: string)             // `str`, `String`
    | LuaStr(content: seq<byte>)     // another `rlua::String`, by the content it refers to

  /** `AsRef<[u8]>::as_ref` of each kind; for a Lua string it is its `as_bytes`. */
  function AsRefOf(other: ByteLike): (bytes: seq<byte>)
    ensures other.RawBytes? ==> bytes == other.bytes
    ensures other.Text? ==> WellFormed(bytes) && Decode(bytes) == Scalars(other.text)
    ensures other.LuaStr? ==> bytes == other.content
  {
    match other
    case RawBytes(bytes) => bytes
    case Text(text) => EncodeWellFormed(Scalars(text)); TextBytes(text)
    case LuaStr(content) => StripNul(NulTerminated(content))
  }

  /** `PartialEq::eq`: the handle's bytes and the other value's bytes agree byte for byte. */
  function BytesEq(bytes: seq<byte>, other: ByteLike): (r: bool)
    ensures r <==> |bytes| == |AsRefOf(other)| && forall i :: 0 <= i < |bytes| ==> bytes[i] == AsRefOf(other)[i]
  {
    bytes == AsRefOf(other)
  }

  // ---------------------------------------------------------------------------------------
  // What the accessors promise.

  /** `as_bytes_with_nul` is the content and one more byte, the terminator; `as_bytes` drops
      exactly that byte, so it is a prefix one byte shorter and gives back the content. */
  lemma AsBytesDropsTerminator(content: seq<byte>)
    ensures var nulled := NulTerminated(content);
      && |nulled| == |content| + 1
      && nulled[|nulled| - 1] == NUL
      && StripNul(nulled) <= nulled
      && |StripNul(nulled)| == |nulled| - 1
      && StripNul(nulled) == content
  {
  }

  /** Embedded nul bytes are content: `as_bytes` keeps the whole content, where a C reader
      of the same buffer stops at the first nul. The two agree exactly when the content
      holds no nul byte. */
  lemma {:induction false} EmbeddedNulKept(content: seq<byte>)
    ensures StripNul(NulTerminated(content)) == content
    ensures CStrLen(NulTerminated(content)) <= |content|
    ensures CStrLen(NulTerminated(content)) == |content| <==> NUL !in content
  {
    var buf := NulTerminated(content);
    var n := CStrLen(buf);
    if NUL in content {
      var i :| 0 <= i < |content| && content[i] == NUL;
      assert buf[i] == NUL;
    }
  }

  /** The byte string "test\0X", with a nul inside its content: `as_bytes` gives all six bytes,
      where a C reader sees four. */
  lemma EmbeddedNulExample()
    ensures var content: seq<byte> := [0x74, 0x65, 0x73, 0x74, 0x00, 0x58];
      && StripNul(NulTerminated(content)) == content
      && |StripNul(NulTerminated(content))| == 6
      && CStrLen(NulTerminated(content)) == 4
  {
    var content: seq<byte> := [0x74, 0x65, 0x73, 0x74, 0x00, 0x58];
    var buf := NulTerminated(content);
    assert buf[1..][1..][1..][1..] == [0x00, 0x58, 0x00];
  }

  /** `to_str` succeeds exactly when the bytes are the UTF-8 encoding of some text, and that
      text is unique. */
  lemma FromUtf8OkIffText(bytes: seq<byte>)
    ensures FromUtf8(bytes).Ok? <==> exists text :: TextBytes(text) == bytes
  {
    if WellFormed(bytes) {
      DecodeEncode(bytes);
      assert TextBytes(Chars(Decode(bytes))) == bytes;
    }
    forall text | TextBytes(text) == bytes
      ensures WellFormed(bytes)
    {
      EncodeWellFormed(Scalars(text));
    }
  }

  /** Two texts with the same bytes are the same text. */
  lemma TextBytesInjective(t1: string, t2: string)
    requires TextBytes(t1) == TextBytes(t2)
    ensures t1 == t2
  {
    EncodeWellFormed(Scalars(t1));
    EncodeWellFormed(Scalars(t2));
    assert Scalars(t1) == Scalars(t2);
    assert forall i :: 0 <= i < |t1| ==> t1[i] as int == t2[i] as int;
  }

  /** The binding's example "test\xff": `to_str` fails, the bytes are valid up to the
      last one, and `as_bytes` still returns all five raw bytes. */
  lemma NonUtf8Example()
    ensures var content: seq<byte> := [0x74, 0x65, 0x73, 0x74, 0xFF];
      && FromUtf8(StripNul(NulTerminated(content))).Err?
      && FromUtf8(StripNul(NulTerminated(content))).error
         == FromLuaConversionError("string", "&str", Some(Utf8Error(4)))
      && StripNul(NulTerminated(content)) == content
  {
    var content: seq<byte> := [0x74, 0x65, 0x73, 0x74, 0xFF];
    var s: seq<byte> := [0xFF];
    assert Validate(s) == Err(Utf8Error(0));
    s := [0x74] + s;
    assert s[1..] == [0xFF] && s[0..1] == [0x74];
    assert Validate(s) == Err(Utf8Error(1));
    s := [0x73] + s;
    assert s[1..] == [0x74, 0xFF] && s[0..1] == [0x73];
    assert Validate(s) == Err(Utf8Error(2));
    s := [0x65] + s;
    assert s[1..] == [0x73, 0x74, 0xFF] && s[0..1] == [0x65];
    assert Validate(s) == Err(Utf8Error(3));
    s := [0x74] + s;
    assert s[1..] == [0x65, 0x73, 0x74, 0xFF] && s[0..1] == [0x74];
    assert s == content;
  }

  /** A handle equals a text value only if its bytes pass `to_str`, which then yields
      exactly the text's bytes. */
  lemma EqTextImpliesToStr(bytes: seq<byte>, text: string)
    requires BytesEq(bytes, Text(text))
    ensures FromUtf8(bytes) == Ok(TextBytes(text))
  {
    EncodeWellFormed(Scalars(text));
  }

  /** Equality compares content only: a handle equals its own content as raw bytes and as
      another handle, and never its terminator-inclusive buffer. */
  lemma EqIgnoresTerminator(content: seq<byte>)
    ensures BytesEq(StripNul(NulTerminated(content)), RawBytes(content))
    ensures BytesEq(StripNul(NulTerminated(content)), LuaStr(content))
    ensures !BytesEq(StripNul(NulTerminated(content)), RawBytes(NulTerminated(content)))
  {
  }

  /** Equality between handles is an equivalence on their contents. */
  lemma EqBetweenHandles(a: seq<byte>, b: seq<byte>, c: seq<byte>)
    ensures BytesEq(StripNul(NulTerminated(a)), LuaStr(a))
    ensures BytesEq(StripNul(NulTerminated(a)), LuaStr(b)) == BytesEq(StripNul(NulTerminated(b)), LuaStr(a))
    ensures BytesEq(StripNul(NulTerminated(a)), LuaStr(b)) && BytesEq(StripNul(NulTerminated(b)), LuaStr(c))
      ==> BytesEq(StripNul(NulTerminated(a)), LuaStr(c))
    ensures BytesEq(StripNul(NulTerminated(a)), LuaStr(b)) <==> a == b
  {
  }

  /** A handle compares the same with a byte buffer, with another handle and with a text
      that hold the same bytes. */
  lemma EqAcrossKinds(bytes: seq<byte>, text: string)
    requires TextBytes(text) == bytes
    ensures forall h :: BytesEq(h, RawBytes(bytes)) == BytesEq(h, LuaStr(bytes)) == BytesEq(h, Text(text))
  {
  }

  /** Contents that differ in any byte, the last one included, compare unequal. */
  lemma DifferentByteUnequal(a: seq<byte>, b: seq<byte>, i: nat)
    requires |a| == |b| && i < |a| && a[i] != b[i]
    ensures !BytesEq(StripNul(NulTerminated(a)), RawBytes(b))
    ensures !BytesEq(StripNul(NulTerminated(a)), LuaStr(b))
  {
    assert StripNul(NulTerminated(a))[i] == a[i];
  }

  // ---------------------------------------------------------------------------------------
  // The handle.

  /** `String<'lua>(LuaRef<'lua>)`: the Lua state and the registry key of the string. */
  class String {
    const lua: Lua
    const registryKey: int

    constructor (lua: Lua, registryKey: int)
      ensures this.lua == lua && this.registryKey == registryKey
    {
      this.lua := lua;
      this.registryKey := registryKey;
    }

    /** The referenced value is a string: the binding asserts this internally on every read. */
    ghost predicate RefersToString()
      reads lua
    {
      lua.RegistryValue(registryKey).Str?
    }

    /** The content of the referenced string, without its terminator. */
    ghost function Content(): seq<byte>
      reads lua
      requires RefersToString()
    {
      lua.RegistryValue(registryKey).content
    }

    /** `as_bytes_with_nul`: inside a stack guard expecting no net change, push the
        referenced value, assert that it is a string, read its buffer and length, pop it,
        and return the buffer up to and including the terminator. The stack and the
        registry are as before. */
    method AsBytesWithNul() returns (nulled: seq<byte>)
      requires RefersToString()
      modifies lua
      ensures nulled == NulTerminated(old(Content()))
      ensures lua.stack == old(lua.stack)
      ensures lua.registry == old(lua.registry)
    {
      // stack_guard(state, 0, ...): the body must leave the depth it found plus `change`
      var change := 0;
      var base := lua.GetTop();
      var expected := base + change;

      lua.PushRef(registryKey);
      var t := lua.Type(-1);
      // lua_internal_assert!: "string ref is not string type"
      assert t == LUA_TSTRING;

      var data, size := lua.ToLString(-1);
      lua.Pop(1);
      nulled := data[..size + 1];

      // stack_guard's check that the body left the stack at the expected depth
      var top := lua.GetTop();
      assert top == expected;
    }

    /** `as_bytes`: the terminator-inclusive view without its final byte. */
    method AsBytes() returns (bytes: seq<byte>)
      requires RefersToString()
      modifies lua
      ensures bytes == StripNul(NulTerminated(old(Content())))
      ensures bytes == old(Content())
      ensures lua.stack == old(lua.stack) && lua.registry == old(lua.registry)
    {
      var nulled := AsBytesWithNul();
      bytes := nulled[..|nulled| - 1];
    }

    /** `to_str`: the bytes of `as_bytes` as text, or the conversion error when they are
        not well-formed UTF-8. */
    method ToStr() returns (r: Result<seq<byte>, Error>)
      requires RefersToString()
      modifies lua
      ensures r == FromUtf8(old(Content()))
      ensures lua.stack == old(lua.stack) && lua.registry == old(lua.registry)
    {
      var bytes := AsBytes();
      r := FromUtf8(bytes);
    }

    /** `AsRef<[u8]>::as_ref`: the same bytes as `as_bytes`. */
    method AsRef() returns (bytes: seq<byte>)
      requires RefersToString()
      modifies lua
      ensures bytes == old(Content())
      ensures lua.stack == old(lua.stack) && lua.registry == old(lua.registry)
    {
      bytes := AsBytes();
    }

    /** `PartialEq<T>::eq` against a byte buffer or a text value. */
    method Eq(other: ByteLike) returns (equal: bool)
      requires RefersToString()
      modifies lua
      ensures equal == BytesEq(old(Content()), other)
      ensures lua.stack == old(lua.stack) && lua.registry == old(lua.registry)
    {
      var bytes := AsBytes();
      equal := bytes == AsRefOf(other);
    }

    /** `PartialEq<T>::eq` against another handle, whose `as_ref` reads its own string. */
    method EqString(other: String) returns (equal: bool)
      requires RefersToString() && other.RefersToString()
      modifies lua, other.lua
      ensures equal == BytesEq(old(Content()), LuaStr(old(other.Content())))
      ensures equal <==> old(Content()) == old(other.Content())
      ensures lua.stack == old(lua.stack) && lua.registry == old(lua.registry)
      ensures other.lua.stack == old(other.lua.stack) && other.lua.registry == old(other.lua.registry)
    {
      var bytes := AsBytes();
      var others := other.AsRef();
      equal := bytes == others;
    }
  }

  /** The binding's "test\xff" example on a live handle: `to_str` fails while `as_bytes`
      returns the five raw bytes, and neither call leaves anything on the stack. */
  method NonUtf8Handle(s: String) returns (r: Result<seq<byte>, Error>, bytes: seq<byte>)
    requires s.RefersToString() && s.Content() == [0x74, 0x65, 0x73, 0x74, 0xFF]
    modifies s.lua
    ensures r == Err(FromLuaConversionError("string", "&str", Some(Utf8Error(4))))
    ensures bytes == [0x74, 0x65, 0x73, 0x74, 0xFF]
    ensures s.lua.stack == old(s.lua.stack) && s.lua.registry == old(s.lua.registry)
  {
    r := s.ToStr();
    NonUtf8Example();
    bytes := s.AsBytes();
  }
}
