/** `public_analytics_body_limit_middleware`: an analytics body is read in front of the
    handler, up to a limit, and replayed to it. */
module AnalyticsGuard {

  const LIMIT := 16384

  type Bytes = seq<int>

  /** A message from the server: part of the request, whose body may be of another type than
      bytes and is then not counted, or anything else, such as a disconnect. */
  datatype Message = Part(body: Bytes, counted: bool, more: bool) | Other {
    function Chunk(): Bytes { if Part? && counted then body else [] }

    predicate Final() { Other? || !more }
  }

  datatype Header = Absent | Malformed | Length(n: int)

  /** `Waiting`: the messages so far do not finish the body, and the handler is not called. */
  datatype Outcome = BadRequest | TooLarge | Waiting | Handed(body: Bytes)

  function Joined(messages: seq<Message>): Bytes
  {
    if messages == [] then [] else messages[0].Chunk() + Joined(messages[1..])
  }

  /** Nothing before message k ends the body. */
  ghost predicate Open(messages: seq<Message>, k: nat)
    requires k <= |messages|
  {
    forall i :: 0 <= i < k ==> !messages[i].Final()
  }

  /** Message k is the one that ends it. */
  ghost predicate Ends(messages: seq<Message>, k: nat)
  {
    k < |messages| && Open(messages, k) && messages[k].Final()
  }

  /** The chunks up to and with message k are within the limit. */
  ghost predicate Fits(messages: seq<Message>, k: nat)
    requires k < |messages|
  {
    |Joined(messages[..k + 1])| <= LIMIT
  }

  lemma {:induction false} JoinedSnoc(messages: seq<Message>, k: nat)
    requires k < |messages|
    ensures Joined(messages[..k + 1]) == Joined(messages[..k]) + messages[k].Chunk()
  {
    if k == 0 {
      assert messages[..1] == [messages[0]] && messages[..0] == [];
      assert messages[..1][1..] == [];
    } else {
      var rest := messages[1..];
      JoinedSnoc(rest, k - 1);
      assert messages[..k + 1][1..] == rest[..k] && messages[..k][1..] == rest[..k - 1];
    }
  }

  /** What ends a body, and what adds to it. */
  lemma EndsExactly(messages: seq<Message>, k: nat)
    ensures Ends(messages, k) <==>
            && k < |messages| && (messages[k].Other? || !messages[k].more)
            && forall i :: 0 <= i < k ==> messages[i].Part? && messages[i].more
    ensures k < |messages| ==>
            Joined(messages[..k + 1]) == Joined(messages[..k]) +
            if messages[k].Other? || !messages[k].counted then [] else messages[k].body
  {
    if k < |messages| { JoinedSnoc(messages, k); }
  }

  lemma JoinedGrows(messages: seq<Message>, j: nat, k: nat)
    requires j <= k <= |messages|
    ensures |Joined(messages[..j])| <= |Joined(messages[..k])|
    decreases k - j
  {
    if j < k {
      JoinedSnoc(messages, j);
      JoinedGrows(messages, j + 1, k);
    }
  }

  /** The middleware on a stream of messages; `peak` is the most it ever kept. */
  method Guard(header: Header, messages: seq<Message>) returns (outcome: Outcome, peak: nat)
    ensures peak <= LIMIT
    ensures outcome == BadRequest <==> header == Malformed
    ensures outcome == TooLarge <==>
              || (header.Length? && header.n > LIMIT)
              || (header != Malformed && exists k :: 0 <= k < |messages| && Open(messages, k) && !Fits(messages, k))
    ensures outcome.Handed? <==>
              && header != Malformed && !(header.Length? && header.n > LIMIT)
              && exists k :: Ends(messages, k) && Fits(messages, k)
    ensures outcome.Handed? ==> forall k :: Ends(messages, k) ==> outcome.body == Joined(messages[..k + 1])
    ensures outcome.Handed? ==> peak == |outcome.body|
    ensures outcome == Waiting ==> peak == |Joined(messages)|
  {
    peak := 0;
    if header == Malformed { return BadRequest, 0; }
    if header.Length? && header.n > LIMIT { return TooLarge, 0; }
    var parts: Bytes := [];
    var seen := 0;
    var i := 0;
    assert messages[..0] == [];
    while i < |messages|
      invariant 0 <= i <= |messages| && Open(messages, i)
      invariant parts == Joined(messages[..i]) && seen == |parts| <= LIMIT && peak == |parts|
      invariant forall k :: 0 <= k < i ==> Fits(messages, k)
      decreases |messages| - i
    {
      var m := messages[i];
      JoinedSnoc(messages, i);
      if m.Part? && m.counted {
        seen := seen + |m.body|;
        if seen > LIMIT {
          assert Open(messages, i) && !Fits(messages, i);
          forall k: nat | Ends(messages, k) ensures !Fits(messages, k) { JoinedGrows(messages, i + 1, k + 1); }
          return TooLarge, peak;
        }
        parts := parts + m.body;
        peak := |parts|;
      }
      if m.Final() {
        assert Ends(messages, i);
        NothingAfterTheEnd(messages, i);
        return Handed(parts), peak;
      }
      i := i + 1;
    }
    assert messages[..|messages|] == messages;
    return Waiting, peak;
  }

  lemma NothingAfterTheEnd(messages: seq<Message>, k: nat)
    requires Ends(messages, k)
    ensures forall j :: 0 <= j < |messages| && Open(messages, j) ==> j <= k
    ensures forall j :: Ends(messages, j) ==> j == k
  {
  }

  /** What the handler reads: the body once, then empty bodies for ever. */
  class Replay {
    const body: Bytes
    var replayed: bool

    constructor (body: Bytes)
      ensures this.body == body && !replayed
    {
      this.body, replayed := body, false;
    }

    method Receive() returns (m: Message)
      modifies this
      ensures m == Part(if old(replayed) then [] else body, true, false) && replayed
    {
      m := Part(if replayed then [] else body, true, false);
      replayed := true;
    }
  }

  /** The replay is a complete request of its own, with the same body; so what the handler is
      handed is what an unguarded reader would have joined, up to the message that ended it. */
  lemma ReplayIsFaithful(messages: seq<Message>, k: nat, later: seq<Message>)
    requires Ends(messages, k)
    requires forall i :: 0 <= i < |later| ==> later[i] == Part([], true, false)
    ensures var replay := [Part(Joined(messages[..k + 1]), true, false)] + later;
            && Ends(replay, 0)
            && Joined(replay[..1]) == Joined(replay) == Joined(messages[..k + 1])
  {
    var b := Joined(messages[..k + 1]);
    var replay := [Part(b, true, false)] + later;
    assert replay[..1] == [replay[0]] && replay[..1][1..] == [] && replay[1..] == later;
    NothingMore(later);
  }

  lemma {:induction false} NothingMore(later: seq<Message>)
    requires forall i :: 0 <= i < |later| ==> later[i] == Part([], true, false)
    ensures Joined(later) == []
  {
    if later != [] { NothingMore(later[1..]); }
  }

  /** The middleware and the handler behind it, which asks for `n` messages. */
  method Relay(header: Header, messages: seq<Message>, n: nat) returns (outcome: Outcome, got: seq<Message>)
    ensures outcome.Handed? <==>
              && header != Malformed && !(header.Length? && header.n > LIMIT)
              && exists k :: Ends(messages, k) && Fits(messages, k)
    ensures |got| == if outcome.Handed? then n else 0
    ensures got != [] ==> Ends(got, 0)
    ensures forall k :: got != [] && Ends(messages, k) ==> Joined(got) == Joined(messages[..k + 1])
  {
    hide Joined;
    var peak;
    outcome, peak := Guard(header, messages);
    got := [];
    if !outcome.Handed? { return; }
    var replay := new Replay(outcome.body);
    for i := 0 to n
      invariant |got| == i && (replay.replayed <==> i > 0)
      invariant i > 0 ==> got[0] == Part(outcome.body, true, false)
      invariant forall j :: 0 < j < i ==> got[j] == Part([], true, false)
    {
      var m := replay.Receive();
      got := got + [m];
    }
    if n > 0 {
      ghost var k: nat :| Ends(messages, k) && Fits(messages, k);
      ReplayIsFaithful(messages, k, got[1..]);
      assert got == [got[0]] + got[1..];
      NothingAfterTheEnd(messages, k);
    }
  }
}
