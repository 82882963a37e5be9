/** The wire frame of the chat server: a fixed 1021-byte buffer that the
    server reinterprets as an instruction (command tag, username field,
    message field) without any validation, and the in-place writes
    (memcpy, strcpy, tag store) the dispatcher performs on it. */
module Frame {

  /** One `char` of the receive buffer. */
  newtype byte = x: int | 0 <= x < 256

  datatype Option<T> = None | Some(value: T)

  const CommandFieldWidth: nat := 1
  const UsernameFieldWidth: nat := 20
  const MessageFieldWidth: nat := 1000

  /** MESSAGE_FIELD_WIDTH / USERNAME_FIELD_WIDTH: the number of 20-byte name
      slots that fit in the message field. */
  const MaxUsers: nat := MessageFieldWidth / UsernameFieldWidth

  /** Total frame width; also the size of the receive buffer. */
  const MaxDataSize: nat := CommandFieldWidth + UsernameFieldWidth + MessageFieldWidth

  const UsernameOffset: nat := CommandFieldWidth
  const MessageOffset: nat := CommandFieldWidth + UsernameFieldWidth

  /** The command enum; its tags start at 1. */
  datatype Command = Unicast | Broadcast | List | Exit | Join | Error

  function Tag(c: Command): (b: byte)
    ensures 1 <= b <= 6
  {
    match c
    case Unicast => 1
    case Broadcast => 2
    case List => 3
    case Exit => 4
    case Join => 5
    case Error => 6
  }

  /** The command a tag byte names, if any; every other byte value falls to
      the `default` arm of the dispatcher's switch. */
  function CommandOf(b: byte): (c: Option<Command>)
    ensures c.Some? <==> 1 <= b <= 6
    ensures c.Some? ==> Tag(c.value) == b
  {
    if b == 1 then Some(Unicast)
    else if b == 2 then Some(Broadcast)
    else if b == 3 then Some(List)
    else if b == 4 then Some(Exit)
    else if b == 5 then Some(Join)
    else if b == 6 then Some(Error)
    else None
  }

  lemma TagRoundTrip(c: Command)
    ensures CommandOf(Tag(c)) == Some(c)
  {
  }

  /** The `instruction_t` view of a buffer. */
  datatype Instruction = Instruction(command: byte, username: seq<byte>, message: seq<byte>)

  predicate WellFormed(i: Instruction)
  {
    |i.username| == UsernameFieldWidth && |i.message| == MessageFieldWidth
  }

  /** The cast `(instruction_t *)buf`: byte 0 is the command, bytes 1..20 the
      username field, bytes 21..1020 the message field. */
  function Decode(f: seq<byte>): (i: Instruction)
    requires |f| == MaxDataSize
    ensures WellFormed(i)
    ensures i.command == f[0]
    ensures forall k :: 0 <= k < UsernameFieldWidth ==> i.username[k] == f[UsernameOffset + k]
    ensures forall k :: 0 <= k < MessageFieldWidth ==> i.message[k] == f[MessageOffset + k]
  {
    Instruction(f[0], f[UsernameOffset..MessageOffset], f[MessageOffset..])
  }

  function Encode(i: Instruction): (f: seq<byte>)
    ensures |f| == CommandFieldWidth + |i.username| + |i.message|
    ensures WellFormed(i) ==> |f| == MaxDataSize
  {
    [i.command] + i.username + i.message
  }

  lemma DecodeEncode(i: Instruction)
    requires WellFormed(i)
    ensures Decode(Encode(i)) == i
  {
    var f := Encode(i);
    assert f[UsernameOffset..MessageOffset] == i.username;
    assert f[MessageOffset..] == i.message;
  }

  lemma EncodeDecode(f: seq<byte>)
    requires |f| == MaxDataSize
    ensures Encode(Decode(f)) == f
  {
    assert f == [f[0]] + f[UsernameOffset..MessageOffset] + f[MessageOffset..];
  }

  /** The buffer after `bytes` have been copied to it at offset `off`. */
  function Overwrite(f: seq<byte>, off: nat, bytes: seq<byte>): (r: seq<byte>)
    requires off + |bytes| <= |f|
    ensures |r| == |f|
    ensures forall k :: 0 <= k < |f| ==> r[k] == (if off <= k < off + |bytes| then bytes[k - off] else f[k])
  {
    f[..off] + bytes + f[off + |bytes|..]
  }

  /** memcpy into the username field. */
  function WithUsername(f: seq<byte>, name: seq<byte>): (r: seq<byte>)
    requires |f| == MaxDataSize && |name| == UsernameFieldWidth
    ensures |r| == MaxDataSize
    ensures Decode(r) == Decode(f).(username := name)
  {
    var r := Overwrite(f, UsernameOffset, name);
    assert Decode(r).username == name;
    assert Decode(r).message == Decode(f).message;
    r
  }

  /** `command[0] = ERROR` followed by `strcpy(message, reason)`: the reason
      and its NUL terminator land at the start of the message field. */
  function WithError(f: seq<byte>, reason: seq<byte>): (r: seq<byte>)
    requires |f| == MaxDataSize && |reason| < MessageFieldWidth
    ensures |r| == MaxDataSize
    ensures Decode(r).command == Tag(Error)
    ensures Decode(r).username == Decode(f).username
    ensures Decode(r).message == reason + [0] + Decode(f).message[|reason| + 1..]
  {
    var r := Overwrite(Overwrite(f, 0, [Tag(Error)]), MessageOffset, reason + [0]);
    assert Decode(r).username == Decode(f).username;
    assert Decode(r).message == reason + [0] + Decode(f).message[|reason| + 1..];
    r
  }

  /** memcpy/strcpy into the buffer, in place. */
  method Write(buf: array<byte>, off: nat, bytes: seq<byte>)
    requires off + |bytes| <= buf.Length
    modifies buf
    ensures buf[..] == Overwrite(old(buf[..]), off, bytes)
  {
    forall k | 0 <= k < |bytes| {
      buf[off + k] := bytes[k];
    }
  }

  /** A C string literal as bytes (no terminator). */
  function AsciiBytes(s: string): (r: seq<byte>)
    requires forall k :: 0 <= k < |s| ==> s[k] as int < 256
    ensures |r| == |s|
    ensures forall k :: 0 <= k < |s| ==> r[k] as int == s[k] as int
  {
    seq(|s|, k requires 0 <= k < |s| => s[k] as int as byte)
  }
}
