# rlua string handle, modelled in Dafny

This project models `rlua::String`, the read-only handle the rlua binding gives host Rust
code for a Lua string. The handle holds a registry reference to the string. Reading its bytes
goes through the Lua evaluation stack. Inside a stack guard that expects no net change, the
binding pushes the referenced value and asserts that it is a string. It then reads the
string's buffer and length, pops the value, and returns the buffer including Lua's
terminating nul byte. The other accessors are views over that result:

- `as_bytes` drops the terminator and keeps embedded nul bytes;
- `to_str` reinterprets the bytes as UTF-8 text or fails with a conversion error;
- `as_ref` and `==` compare the content bytes with anything byte-like.

Files:

- `bytes.dfy` (module `Bytes`): bytes, the nul-terminated buffer Lua keeps for a string, and
  what C's `strlen` sees in such a buffer.
- `utf8.dfy` (module `Utf8`): UTF-8 well-formedness in three views, proved equivalent:
  - the byte-sequence syntax of section 4 of RFC 3629 (no overlong forms, no surrogates,
    nothing above U+10FFFF);
  - the encoding of scalar values of section 3 of RFC 3629;
  - the validator `str::from_utf8` runs, which reports the longest well-formed prefix.
- `lua_state.dfy` (module `LuaState`): an abstract Lua state. Class `Lua` holds the stack as
  a `seq<Value>` and the registry as a `map<int, Value>`. The C API calls the handle makes
  (`lua_gettop`, `push_ref`, `lua_type`, `lua_tolstring`, `lua_pop`) are its methods.
- `lua_string.dfy` (module `LuaString`): the handle as class `String` (a Lua state and a
  registry key), with methods for each accessor. The pure functions specify what those
  methods return, and lemmas state the promised properties.
- `wrappers.dfy` (module `Wrappers`): `Option` and `Result`.

Notes on the code:

- The error is `FromLuaConversionError` with `from` = "string" and `to` = "&str"
  (src/string.rs:38-42).
- The stack guard is given an expected change of 0 (src/string.rs:72). The model therefore
  states the guard's exit condition as a verified assertion: the body leaves exactly the
  depth it found. The body is proved to do so.
- The type check is a fatal internal assertion, not an error value (src/string.rs:75-79).
  It is a precondition of the accessors, and it is checked in the body by a verified
  `assert`.

## Model

| member | source | states |
|---|---|---|
| `LuaString.String.AsBytesWithNul` | src/string.rs:69-90 | Returns the stored content followed by the nul terminator, so its length is size + 1. The stack and the registry are left exactly as they were: one push, then one pop. The guard's "depth restored" and the "is a string" assertions are proved in the body. Callable only on a handle whose registry entry is a string. |
| `LuaString.String.AsBytes` | src/string.rs:63-66 | Returns the terminator-inclusive view minus its last byte, which is exactly the stored content. The stack and the registry are unchanged. |
| `LuaString.String.ToStr` | src/string.rs:37-43 | Returns the conversion of the handle's content by `str::from_utf8`. The stack and the registry are unchanged. |
| `LuaString.String.AsRef` | src/string.rs:93-97 | Returns the same bytes as `as_bytes`, the stored content. |
| `LuaString.String.Eq` | src/string.rs:107-114 | True iff the content equals the other value's `as_ref` bytes. The stack and the registry are unchanged. |
| `LuaString.String.EqString` | src/string.rs:107-114 | Comparing with another handle is true iff the two stored contents are the same bytes. Both Lua states are unchanged. |
| `LuaString.NonUtf8Handle` | src/string.rs:58-60 | On a live handle to "test\xff", `to_str` returns FromLuaConversionError("string", "&str") with the valid prefix ending at index 4. `as_bytes` then still returns the five bytes, and the stack and the registry are as before. |
| `LuaString.StripNul` | src/string.rs:63-66 | `as_bytes` is a prefix of the terminator-inclusive view, exactly one byte shorter. |
| `LuaString.FromUtf8` | src/string.rs:37-42 | Succeeds iff the bytes are well-formed UTF-8, and then returns the same bytes. Otherwise the error has from = "string", to = "&str" and a present message. |
| `LuaString.AsRefOf` | src/string.rs:101-112 | The `as_ref` bytes of each kind a handle compares with: a byte slice or `Vec<u8>` gives its own bytes; a `&str` or `String` gives its UTF-8 encoding, which is always well-formed; another `rlua::String` gives its `as_bytes`, its stored content. |
| `LuaString.BytesEq` | src/string.rs:111-113 | Equality holds iff the lengths agree and every byte agrees with the other value's `as_ref`. |
| `LuaString.AsBytesDropsTerminator` | src/string.rs:63-69 | The terminator-inclusive view is one byte longer than the content, and its last byte is nul. `as_bytes` is a prefix of it, one byte shorter, and equals the content. |
| `LuaString.EmbeddedNulKept` | src/string.rs:45-48 | `as_bytes` keeps the whole content. A C reader's length is at most the content length, and the two are equal iff the content holds no nul byte. |
| `LuaString.EmbeddedNulExample` | src/string.rs:47-48 | For "test\0X", `as_bytes` is all 6 bytes, while a C reader of the buffer stops after 4. |
| `LuaString.NonUtf8Example` | src/string.rs:29-30 | For "test\xff", `to_str` fails with FromLuaConversionError("string", "&str") and a message. The failure reports the valid prefix ending at index 4. `as_bytes` still returns those 5 bytes. |
| `LuaString.FromUtf8OkIffText` | src/string.rs:37-42 | `to_str` succeeds iff the bytes are the UTF-8 encoding of some text. |
| `LuaString.TextBytesInjective` | src/string.rs:99-101 | Two texts with the same bytes are equal, so a handle equal to a text determines that text. |
| `LuaString.EqTextImpliesToStr` | src/string.rs:107-113 | If a handle compares equal to a text, `to_str` succeeds and yields exactly that text's bytes. |
| `LuaString.EqIgnoresTerminator` | src/string.rs:111-113 | A handle equals its content as raw bytes and as another handle. It never equals its terminator-inclusive buffer. |
| `LuaString.EqBetweenHandles` | src/string.rs:107-113 | Comparing handles is reflexive, symmetric and transitive, and true iff the contents are equal. |
| `LuaString.EqAcrossKinds` | src/string.rs:99-113 | A handle compares the same with a byte buffer, another handle and a text holding the same bytes. |
| `LuaString.DifferentByteUnequal` | src/string.rs:111-113 | Contents that differ in any byte, the last one included, compare unequal as raw bytes and as handles. |
| `Bytes.NulTerminated` | src/string.rs:84-87 | Lua's buffer for a string is the content followed by one nul, so it is size + 1 bytes long. |
| `LuaState.TypeOf` | src/string.rs:77 | The type tag is LUA_TSTRING iff the value is a string. |
| `LuaState.Lua.GetTop` | src/string.rs:72 | Returns the current stack depth, which the guard records on entry and compares on exit. |
| `LuaState.Lua.PushRef` | src/string.rs:74 | Appends the registry's value for the key (nil for an absent key) to the stack. The registry is unchanged. |
| `LuaState.Lua.Type` | src/string.rs:77 | Returns the tag of the value at a valid index, and LUA_TNONE above the top. |
| `LuaState.Lua.ToLString` | src/string.rs:81-84 | Returns the string's buffer (content, then nul) and its size, which leaves the terminator out. |
| `LuaState.Lua.Pop` | src/string.rs:86 | Removes exactly the top n values. The registry is unchanged. |
| `Utf8.EncodeScalarValid` | src/string.rs:38 | Every Unicode scalar value encodes to a character of the RFC 3629 grammar, and decoding gives it back. |
| `Utf8.DecodeCharEncodes` | src/string.rs:38 | Every character of the grammar is the encoding of the scalar value it decodes to. |
| `Utf8.EncodeWellFormed` | src/string.rs:38 | Encoding any sequence of scalar values yields well-formed bytes, and decoding them returns the scalar values. |
| `Utf8.DecodeEncode` | src/string.rs:38 | Decoding well-formed bytes and re-encoding gives the same bytes. |
| `Utf8.WellFormedIffEncoding` | src/string.rs:38 | Bytes are well-formed iff they are the encoding of some sequence of scalar values. |
| `Utf8.Validate` | src/string.rs:38 | A reported failure position lies inside the input. |
| `Utf8.ValidateAcceptsWellFormed` | src/string.rs:38 | The validator accepts exactly the well-formed byte sequences. |
| `Utf8.ValidUpToIsValid` | src/string.rs:38 | On failure, the bytes before the reported position are well-formed, and no well-formed character starts at it. |
| `Utf8.ValidUpToIsMaximal` | src/string.rs:38 | On failure, no prefix longer than the reported position is well-formed. |

## Left out

- The C side of the Lua API (`lua_rawgeti`, `lua_type`, `lua_tolstring`, `lua_settop`) is not
  part of this model. Each call is one method on the abstract `Lua` class, with its effect on
  the operands the handle passes: index -1, holding the referenced value, a string once the
  type check passes. `lua_tolstring`'s in-place conversion of numbers and its NULL result for
  other types, and pseudo-indices, are not modelled.
- `check_stack(lua.state, 1)` (src/string.rs:73) is left out. Stack capacity and its growth
  are not modelled, because `util` is not part of this model.
- `stack_guard` itself is left out, because `util` is not part of this model. Its effect
  appears in `LuaString.String.AsBytesWithNul` as the recorded depth and the verified
  assertion that the body restores it.
- Raw pointers, `slice::from_raw_parts` and the `'lua` lifetime (src/string.rs:87) are left
  out. Byte views are values, so they stay valid after the guard's scope by construction.
- `LuaRef` cloning, dropping and registry reference counting (src/string.rs:11-12) are left
  out. `types` is not part of this model, so the registry's key allocation and release are
  not modelled.
- LuaString.FromUtf8: the message is the structured UTF-8 failure (its valid prefix length), not the
  text `e.to_string()` renders (src/string.rs:41). That text is produced by the standard
  library. Rust's `error_len` is not modelled either.
- `LuaState.Value`: numbers are integers, because floating point plays no part in reading a
  string.
- The `Debug` derive and the remark about `Cow<str>` (src/string.rs:104-106) are left out.
