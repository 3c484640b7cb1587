/** Outgoing messages arriving from another device show that the user has noticed
    what came before them. */
module Noticed {
  import opened Ids
  import opened MessageList

  datatype Received = Received(chat: ChatId, state: MsgState, sortTs: int)

  predicate IsOutgoing(s: MsgState) {
    s.OutDraft? || s.OutPending? || s.OutFailed? || s.OutDelivered? || s.OutMdnRcvd?
  }

  predicate IsFreshIn(m: Msg, chat: ChatId) {
    m.state.InFresh? && !m.hidden && m.chat == chat
  }

  /** The plain rule: some received message of the same chat that is not incoming is at
      or after the time of `m`. */
  ghost predicate Overtaken(batch: seq<Received>, m: Msg) {
    exists r :: r in batch && r.state !in {Undefined, InFresh, InNoticed, InSeen} && r.chat == m.chat && m.ts <= r.sortTs
  }

  method LatestByChat(batch: seq<Received>) returns (latest: map<ChatId, int>)
    ensures forall c :: c in latest ==>
              exists r :: r in batch && IsOutgoing(r.state) && r.chat == c && r.sortTs == latest[c]
    ensures forall r :: r in batch && IsOutgoing(r.state) ==> r.chat in latest && r.sortTs <= latest[r.chat]
  {
    latest := map[];
    for i := 0 to |batch|
      invariant forall c :: c in latest ==>
                  exists r :: r in batch[..i] && IsOutgoing(r.state) && r.chat == c && r.sortTs == latest[c]
      invariant forall r :: r in batch[..i] && IsOutgoing(r.state) ==> r.chat in latest && r.sortTs <= latest[r.chat]
    {
      var r := batch[i];
      assert batch[..i + 1] == batch[..i] + [r];
      if IsOutgoing(r.state) && (r.chat !in latest || r.sortTs > latest[r.chat]) {
        latest := latest[r.chat := r.sortTs];
      }
    }
    assert batch[..|batch|] == batch;
  }

  function NoticeUpTo(m: Msg, chat: ChatId, t: int): Msg {
    if IsFreshIn(m, chat) && m.ts <= t then m.(state := InNoticed) else m
  }

  /** One statement of the transaction; returns whether it changed a row. */
  method NoticeChat(msgs: Msgs, chat: ChatId, t: int) returns (msgs': Msgs, changed: bool)
    ensures msgs'.Keys == msgs.Keys && forall x :: x in msgs ==> msgs'[x] == NoticeUpTo(msgs[x], chat, t)
    ensures changed <==> exists x :: x in msgs && msgs'[x] != msgs[x]
  {
    msgs' := map x | x in msgs :: NoticeUpTo(msgs[x], chat, t);
    changed := exists x :: x in msgs && msgs'[x] != msgs[x];
  }

  function NoticeIn(m: Msg, latest: map<ChatId, int>): Msg {
    if m.chat in latest then NoticeUpTo(m, m.chat, latest[m.chat]) else m
  }

  /** The whole transaction, for the chats in any order; returns the changed chats. */
  method NoticeChats(msgs: Msgs, latest: map<ChatId, int>) returns (msgs': Msgs, changed: seq<ChatId>)
    ensures msgs'.Keys == msgs.Keys && forall x :: x in msgs ==> msgs'[x] == NoticeIn(msgs[x], latest)
    ensures forall c :: c in changed <==> exists x :: x in msgs && msgs[x].chat == c && msgs'[x] != msgs[x]
    ensures forall i, j :: 0 <= i < j < |changed| ==> changed[i] != changed[j]
  {
    msgs', changed := msgs, [];
    var todo := latest.Keys;
    while todo != {}
      invariant todo <= latest.Keys && msgs'.Keys == msgs.Keys
      invariant forall x :: x in msgs ==>
                  msgs'[x] == if msgs[x].chat in todo then msgs[x] else NoticeIn(msgs[x], latest)
      invariant forall c :: c in changed ==> c in latest && c !in todo
      invariant forall c :: c in changed <==> exists x :: x in msgs && msgs[x].chat == c && msgs'[x] != msgs[x]
      invariant forall i, j :: 0 <= i < j < |changed| ==> changed[i] != changed[j]
      decreases todo
    {
      var chat :| chat in todo;
      var next, some := NoticeChat(msgs', chat, latest[chat]);
      if some { changed := changed + [chat]; }
      msgs', todo := next, todo - {chat};
    }
  }

  /** A visible fresh message becomes noticed exactly by the plain rule, nothing
      else changes, and exactly the chats with a changed message are reported, once. */
  method MarkOldMessagesAsNoticed(msgs: Msgs, batch: seq<Received>, teamProfile: bool)
    returns (msgs': Msgs, changed: seq<ChatId>)
    ensures msgs'.Keys == msgs.Keys
    ensures forall x :: x in msgs ==>
              msgs'[x] == if !teamProfile && msgs[x].state == InFresh && !msgs[x].hidden && Overtaken(batch, msgs[x])
                          then msgs[x].(state := InNoticed) else msgs[x]
    ensures forall c :: c in changed <==> exists x :: x in msgs && msgs[x].chat == c && msgs'[x] != msgs[x]
    ensures forall i, j :: 0 <= i < j < |changed| ==> changed[i] != changed[j]
  {
    msgs', changed := msgs, [];
    if teamProfile { return; }
    var latest := LatestByChat(batch);
    msgs', changed := NoticeChats(msgs, latest);
  }
}
