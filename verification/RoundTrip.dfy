/** The printer and the reader together. */
module RoundTrip {
  import opened Bytes
  import opened Decimal
  import opened Resp
  import opened Format
  import opened Reader
  import opened Wire

  /** Commands written one after another by redisFormatCommandArgv. */
  method SendAll(commands: seq<seq<seq<byte>>>) returns (wire: seq<byte>)
    requires forall c :: c in commands ==> |Encode(c)| <= INT_MAX
    ensures wire == EncodeAll(commands)
  {
    wire := [];
    for i := 0 to |commands|
      invariant wire + EncodeAll(commands[i..]) == EncodeAll(commands)
    {
      var cmd, totlen := FormatCommandArgv(commands[i]);
      assert commands[i..][1..] == commands[i + 1..];
      assert wire + (Encode(commands[i]) + EncodeAll(commands[i + 1..])) ==
             wire + Encode(commands[i]) + EncodeAll(commands[i + 1..]);
      wire := wire + cmd[..totlen];
    }
    assert wire + [] == wire;
  }

  /**
   * Any list of commands, formatted and then received in any chunks, comes back as one array reply per command, in
   * order, whose strings are the arguments byte for byte, without an error.
   */
  method Exchange(commands: seq<seq<seq<byte>>>, chunks: seq<seq<byte>>)
    returns (replies: seq<RedisReply>, err: Option<ReaderError>, ghost fp: set<RedisReply>)
    requires forall c :: c in commands ==> Sendable(c)
    requires Concat(chunks) == EncodeAll(commands) && |Concat(chunks)| <= INT_MAX
    ensures err == None && Spell(replies, Arrays(commands), fp)
  {
    replies, err, fp := Session(chunks);
    CommandsRead(commands);
  }

  /**
   * Replies spelt one after another by a server, and received in any chunks, come back as objects of their kinds, with
   * their contents, in order and without an error.
   */
  method ReceiveReplies(chunks: seq<seq<byte>>, ghost rs: seq<Reply>, ghost ws: seq<seq<byte>>)
    returns (replies: seq<RedisReply>, err: Option<ReaderError>, ghost fp: set<RedisReply>)
    requires AllSpelt(rs, ws, 0) && Concat(chunks) == Concat(ws) && |Concat(chunks)| <= INT_MAX
    ensures err == None && Spell(replies, rs, fp)
    ensures forall i :: 0 <= i < |rs| ==>
              && (rs[i].Status? ==> replies[i].kind == StatusKind && replies[i].str == rs[i].line)
              && (rs[i].Error? ==> replies[i].kind == ErrorKind && replies[i].str == rs[i].line)
              && (rs[i].Integer? ==> replies[i].kind == IntegerKind && replies[i].integer == rs[i].v)
              && (rs[i].Bulk? ==> replies[i].kind == StringKind && replies[i].str == rs[i].str)
              && (rs[i].Nil? ==> replies[i].kind == NilKind)
              && (rs[i].Array? ==> replies[i].kind == ArrayKind && replies[i].elements == |rs[i].items|)
  {
    StreamIs(rs, ws);
    replies, err, fp := Session(chunks);
  }
}
