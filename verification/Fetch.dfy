// One download window: what curl can return, how it is read, and what a well-behaved server returns.
module Fetch {
  import opened Basics

  const FREE_FLOOR: nat := 2 * 1024 * 1024 * 1024

  // curl's exit status, the HTTP status ("" when there is none) and the body, in the blocks it came in.
  datatype Reply = Reply(rc: int, code: string, blocks: seq<Bytes>)

  function Concat(blocks: seq<Bytes>): Bytes {
    if blocks == [] then [] else blocks[0] + Concat(blocks[1..])
  }

  function Capped(body: Bytes, limit: nat): (r: Bytes)
    ensures |r| <= limit
  {
    if |body| <= limit then body else body[..limit]
  }

  // After i blocks: what was written is what they held, cut at the limit by the last one if over.
  ghost predicate Copied(blocks: seq<Bytes>, i: nat, limit: nat, got: nat, over: bool, written: Bytes) {
    && i <= |blocks| && got <= limit
    && (over ==> |Concat(blocks)| > limit && written == Capped(Concat(blocks), limit))
    && (!over ==> got == |written| && Concat(blocks) == written + Concat(blocks[i..]))
  }

  lemma CopiedStep(blocks: seq<Bytes>, i: nat, limit: nat, got: nat, written: Bytes)
    requires Copied(blocks, i, limit, got, false, written) && i < |blocks|
    ensures got + |blocks[i]| > limit ==> Copied(blocks, i, limit, got, true, written + blocks[i][..limit - got])
    ensures got + |blocks[i]| <= limit ==> Copied(blocks, i + 1, limit, got + |blocks[i]|, false, written + blocks[i])
  {
    var block, rest := blocks[i], Concat(blocks[i + 1..]);
    assert blocks[i..][1..] == blocks[i + 1..];
    assert Concat(blocks) == (written + block) + rest;
    if got + |block| > limit {
      assert ((written + block) + rest)[..limit] == written + block[..limit - got];
    }
  }

  lemma CopiedAll(blocks: seq<Bytes>, limit: nat, got: nat, written: Bytes)
    requires Copied(blocks, |blocks|, limit, got, false, written)
    ensures written == Capped(Concat(blocks), limit) && |Concat(blocks)| <= limit
  {
  }

  predicate TransientHttp(code: string) {
    code == "408" || code == "429" || (code != "" && code[0] == '5')
  }

  predicate Redirect(code: string) {
    code != "" && code[0] == '3'
  }

  datatype Ending =
    | NotTheBundle   // a redirect, a missing file, a refusal
    | TooMuch        // more than the index promised
    | CannotResume   // 416
    | IgnoredRange   // the whole file instead of the rest
    | Ended          // part of the bundle, or nothing

  function Judge(rc: int, code: string, over: bool, have: nat): Ending {
    if code != "416" && (|| Redirect(code)
                         || (rc == 22 && !TransientHttp(code))
                         || (rc == 0 && code !in {"200", "206"})) then NotTheBundle
    else if over then TooMuch
    else if code == "416" then CannotResume
    else if rc == 33 || (rc == 0 && code == "200" && have > 0) then IgnoredRange
    else Ended
  }

  // RFC 9110 from a server that holds file and supports ranges, asked for it from byte have on: 200 or
  // 206 and the bytes from there, cut off anywhere (sections 14.2 and 15.3.7); a busy server's status,
  // whose body curl --fail drops; or no answer.
  predicate HonestReply(file: Bytes, have: nat, reply: Reply) {
    && have < |file|
    && var body := Concat(reply.blocks);
       || (&& reply.code == (if have == 0 then "200" else "206") && reply.rc !in {22, 33}
           && body <= file[have..] && (reply.rc == 0 ==> body == file[have..]))
       || (reply.rc == 22 && TransientHttp(reply.code) && body == [])
       || (reply.rc !in {0, 22, 33} && reply.code in {"", "000"} && body == [])
  }

  // Nothing such a server sends is taken for a refusal, an excess or a server that cannot resume.
  lemma HonestIsNeverMisread(file: Bytes, have: nat, reply: Reply)
    requires HonestReply(file, have, reply)
    ensures have + |Concat(reply.blocks)| <= |file|
    ensures Judge(reply.rc, reply.code, false, have) == Ended
    ensures file[..have] + Concat(reply.blocks) <= file
  {
    var body := Concat(reply.blocks);
    assert file == file[..have] + file[have..];
    assert body <= file[have..];
    assert file[..have] + body == file[..have + |body|];
    assert "200"[0] != '3' && "206"[0] != '3' && "000"[0] != '3' && "408"[0] == '4' && "429"[0] == '4';
    assert "416"[0] == '4' && "416"[1] == '1' && "429"[1] == '2' && "408"[1] == '0';
  }
}
