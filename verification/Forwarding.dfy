/** Two separately written filters that must agree: the chats offered as targets
    for forwarding, and the chats one may send to. */
module Forwarding {
  import opened Ids
  import opened Options

  const SELF: ContactId := 1
  const DEVICE: ContactId := 5
  const LAST_SPECIAL: ChatId := 9
  const ARCHIVED_LINK: ChatId := 6
  const ALLDONE_HINT: ChatId := 7

  datatype ChatType = Single | Group | Mailinglist | OutBroadcast | InBroadcast
  datatype Blocked = Not | Yes | Request
  datatype Visibility = Normal | Archived | Pinned

  /** The message shown for a chat: its latest visible one or draft. */
  datatype Shown = Shown(ts: int, id: nat)

  /** `rows` are the contacts with a row in the member table, `members` the current
      members among them. `keyMissing` says that the contact of a 1:1 chat is a
      key-contact whose key is unknown. */
  datatype Chat = Chat(
    typ: ChatType,
    blocked: Blocked,
    visibility: Visibility,
    listPost: Option<string>,
    deviceTalk: bool,
    rows: set<ContactId>,
    members: set<ContactId>,
    keyMissing: bool,
    created: int,
    shown: Option<Shown>)

  type Chats = map<ChatId, Chat>

  // -------------------------------------------------------- send permission

  datatype Reason =
    | SpecialChat | DeviceChat | ContactRequest | ReadOnlyMailingList | InBroadcastChat | NotAMember | MissingKey

  predicate NoListAddress(c: Chat) { c.listPost.None? || c.listPost.value == "" }

  predicate SelfInChat(c: Chat) {
    match c.typ
    case Single | OutBroadcast | Mailinglist => true
    case Group | InBroadcast => SELF in c.members
  }

  function WhyCantSend(id: ChatId, c: Chat, skip: Reason -> bool): Option<Reason> {
    if id <= LAST_SPECIAL && !skip(SpecialChat) then Some(SpecialChat)
    else if c.deviceTalk && !skip(DeviceChat) then Some(DeviceChat)
    else if c.blocked.Request? && !skip(ContactRequest) then Some(ContactRequest)
    else if c.typ.Mailinglist? && NoListAddress(c) && !skip(ReadOnlyMailingList) then Some(ReadOnlyMailingList)
    else if c.typ.InBroadcast? && !skip(InBroadcastChat) then Some(InBroadcastChat)
    else if !skip(NotAMember) && !SelfInChat(c) then Some(NotAMember)
    else if !skip(MissingKey) && c.typ.Single? && c.keyMissing then Some(MissingKey)
    else None
  }

  predicate CanForward(id: ChatId, c: Chat) {
    var reason := WhyCantSend(id, c, _ => false);
    reason.None? || reason == Some(MissingKey)
  }

  /** What each reason means for a chat. */
  predicate Applies(r: Reason, id: ChatId, c: Chat) {
    match r
    case SpecialChat => id <= 9
    case DeviceChat => c.deviceTalk
    case ContactRequest => c.blocked == Request
    case ReadOnlyMailingList => c.typ == Mailinglist && (c.listPost.Some? ==> |c.listPost.value| == 0)
    case InBroadcastChat => c.typ == InBroadcast
    case NotAMember => c.typ in {Group, InBroadcast} && SELF !in c.members
    case MissingKey => c.typ == Single && c.keyMissing
  }

  /** The order in which they are looked at, slow ones last. */
  function Place(r: Reason): nat {
    match r
    case SpecialChat => 0
    case DeviceChat => 1
    case ContactRequest => 2
    case ReadOnlyMailingList => 3
    case InBroadcastChat => 4
    case NotAMember => 5
    case MissingKey => 6
  }

  lemma ReasonApplies(id: ChatId, c: Chat, skip: Reason -> bool, r: Reason)
    ensures var w := WhyCantSend(id, c, skip);
            if w.None? then Applies(r, id, c) ==> skip(r)
            else
              && Applies(w.value, id, c) && !skip(w.value)
              && (Place(r) < Place(w.value) && Applies(r, id, c) ==> skip(r))
              && (Place(r) == Place(w.value) ==> r == w.value)
  {
  }

  /** The reason given is the first one that applies and is not skipped, and none is
      given exactly if there is none. */
  lemma ReasonMeaning(id: ChatId, c: Chat, skip: Reason -> bool)
    ensures WhyCantSend(id, c, skip).None? <==> forall r :: Applies(r, id, c) ==> skip(r)
    ensures forall r :: WhyCantSend(id, c, skip) == Some(r) <==>
              && Applies(r, id, c) && !skip(r)
              && forall r' :: Place(r') < Place(r) && Applies(r', id, c) ==> skip(r')
  {
    var w := WhyCantSend(id, c, skip);
    forall r
      ensures if w.None? then Applies(r, id, c) ==> skip(r)
              else
                && Applies(w.value, id, c) && !skip(w.value)
                && (Place(r) < Place(w.value) && Applies(r, id, c) ==> skip(r))
                && (Place(r) == Place(w.value) ==> r == w.value)
    {
      ReasonApplies(id, c, skip, r);
    }
  }

  // -------------------------------------------------------- forwarding list

  /** Chat `id` is the 1:1 chat with `contact`. */
  predicate IsSingleWith(chats: Chats, id: ChatId, contact: ContactId) {
    id in chats && id > LAST_SPECIAL && chats[id].typ.Single? && contact in chats[id].rows
  }

  /** What looking up the 1:1 chat with a contact may give: 0 if there is none or it is blocked. */
  ghost predicate IsLookup(chats: Chats, contact: ContactId, found: ChatId) {
    if exists id :: IsSingleWith(chats, id, contact) && !chats[id].blocked.Yes?
    then IsSingleWith(chats, found, contact) && !chats[found].blocked.Yes?
    else found == 0
  }

  predicate Selected(chats: Chats, id: ChatId, skip: ChatId)
    requires id in chats
  {
    var c := chats[id];
    && id > LAST_SPECIAL && id != skip
    && c.blocked.Not?
    && !c.visibility.Archived?
    && (!c.typ.Group? || SELF in c.members)
    && !c.typ.InBroadcast?
    && !(c.typ.Mailinglist? && NoListAddress(c))
  }

  predicate HasArchived(chats: Chats) {
    exists id :: id in chats && !chats[id].blocked.Yes? && chats[id].visibility.Archived?
  }

  /** What the query sorts by. */
  datatype Key = Key(top: bool, pinned: bool, time: int, msg: int)

  /** A message time of 0 counts as none; a chat without a message comes after one with. */
  function KeyOf(id: ChatId, c: Chat, top: ChatId): Key {
    Key(id == top, c.visibility.Pinned?,
        if c.shown.Some? && c.shown.value.ts != 0 then c.shown.value.ts else c.created,
        if c.shown.Some? then c.shown.value.id else -1)
  }

  /** `k` need not come after `l`: the top chat first, then pinned ones, then the latest. */
  predicate NotAfter(k: Key, l: Key) {
    if k.top != l.top then k.top
    else if k.pinned != l.pinned then k.pinned
    else if k.time != l.time then k.time > l.time
    else k.msg >= l.msg
  }

  ghost predicate InOrder(chats: Chats, top: ChatId, s: seq<ChatId>) {
    && (forall i :: 0 <= i < |s| ==> s[i] in chats)
    && forall i, j :: 0 <= i < j < |s| ==>
         s[i] != s[j] && NotAfter(KeyOf(s[i], chats[s[i]], top), KeyOf(s[j], chats[s[j]], top))
  }

  function Insert(chats: Chats, top: ChatId, id: ChatId, s: seq<ChatId>): (r: seq<ChatId>)
    requires id in chats && forall i :: 0 <= i < |s| ==> s[i] in chats
    ensures forall x :: x in r <==> x == id || x in s
  {
    if s == [] || NotAfter(KeyOf(id, chats[id], top), KeyOf(s[0], chats[s[0]], top)) then [id] + s
    else
      assert s == [s[0]] + s[1..];
      [s[0]] + Insert(chats, top, id, s[1..])
  }

  /** `x` may come before all of `s`. */
  ghost predicate Leads(chats: Chats, top: ChatId, x: ChatId, s: seq<ChatId>)
    requires x in chats
  {
    forall y :: y in s ==> y in chats && y != x && NotAfter(KeyOf(x, chats[x], top), KeyOf(y, chats[y], top))
  }

  lemma ConsInOrder(chats: Chats, top: ChatId, x: ChatId, s: seq<ChatId>)
    requires x in chats && Leads(chats, top, x, s) && InOrder(chats, top, s)
    ensures InOrder(chats, top, [x] + s)
  {
  }

  lemma HeadLeads(chats: Chats, top: ChatId, s: seq<ChatId>)
    requires InOrder(chats, top, s) && s != []
    ensures Leads(chats, top, s[0], s[1..]) && InOrder(chats, top, s[1..])
  {
  }

  lemma {:induction false} InsertInOrder(chats: Chats, top: ChatId, id: ChatId, s: seq<ChatId>)
    requires InOrder(chats, top, s) && id in chats && id !in s
    ensures InOrder(chats, top, Insert(chats, top, id, s))
  {
    if s == [] {
      ConsInOrder(chats, top, id, s);
    } else {
      HeadLeads(chats, top, s);
      if NotAfter(KeyOf(id, chats[id], top), KeyOf(s[0], chats[s[0]], top)) {
        assert s == [s[0]] + s[1..];
        ConsInOrder(chats, top, id, s);
      } else {
        InsertInOrder(chats, top, id, s[1..]);
        ConsInOrder(chats, top, s[0], Insert(chats, top, id, s[1..]));
      }
    }
  }

  /** The entries of the query: the selected chats in order, whatever order the table has. */
  method Query(chats: Chats, skip: ChatId, top: ChatId) returns (ids: seq<ChatId>)
    ensures InOrder(chats, top, ids)
    ensures forall id :: id in ids <==> id in chats && Selected(chats, id, skip)
  {
    ids := [];
    var todo := chats.Keys;
    while todo != {}
      invariant todo <= chats.Keys && InOrder(chats, top, ids)
      invariant forall id :: id in ids <==> id in chats && id !in todo && Selected(chats, id, skip)
      decreases todo
    {
      var id :| id in todo;
      if Selected(chats, id, skip) {
        InsertInOrder(chats, top, id, ids);
        ids := Insert(chats, top, id, ids);
      }
      todo := todo - {id};
    }
  }

  /** `skip` is the device chat and `top` the chat with oneself. The archive link comes
      first, and the hint stands in for missing ordinary entries. */
  method LoadForForwarding(chats: Chats, skip: ChatId, top: ChatId, noSpecials: bool, hint: bool)
    returns (ids: seq<ChatId>, ghost offered: seq<ChatId>)
    requires DeviceChatIsMarked(chats) && IsLookup(chats, DEVICE, skip) && IsLookup(chats, SELF, top)
    ensures InOrder(chats, top, offered)
    ensures forall id :: id in offered <==>
              && id in chats && !chats[id].visibility.Archived? && chats[id].blocked.Not?
              && CanForward(id, chats[id])
    ensures ids == if noSpecials || !HasArchived(chats) then offered
                   else if offered == [] && hint then [ARCHIVED_LINK, ALLDONE_HINT]
                   else [ARCHIVED_LINK] + offered
    ensures forall id :: id in offered <==> id in ids && id > LAST_SPECIAL
    ensures top in offered ==> offered[0] == top
    ensures ARCHIVED_LINK in ids <==>
              !noSpecials && exists id :: id in chats && chats[id].visibility == Archived && chats[id].blocked in {Not, Request}
    ensures ALLDONE_HINT in ids <==> ARCHIVED_LINK in ids && hint && offered == []
  {
    ids := Query(chats, skip, top);
    offered := ids;
    forall id | id in chats ensures Selected(chats, id, skip) <==>
      !chats[id].visibility.Archived? && chats[id].blocked.Not? && CanForward(id, chats[id])
    {
      FiltersAgree(chats, id, skip);
    }
    if !noSpecials && HasArchived(chats) {
      if ids == [] && hint { ids := ids + [ALLDONE_HINT]; }
      ids := [ARCHIVED_LINK] + ids;
    }
  }

  /** When a chat was last active: at its latest message, or else when it was created. */
  predicate ActiveAt(c: Chat, t: int) {
    match c.shown
    case Some(Shown(ts, _)) => if ts == 0 then t == c.created else t == ts
    case None => t == c.created
  }

  /** What the order means: nothing comes before the top chat, pinned chats come before
      others, and among these the one active later comes first; at the same time the one
      with the later message, and one without any comes last. */
  lemma OrderMeaning(chats: Chats, top: ChatId, s: seq<ChatId>, i: nat, j: nat, ti: int, tj: int)
    requires InOrder(chats, top, s) && i < j < |s| && ActiveAt(chats[s[i]], ti) && ActiveAt(chats[s[j]], tj)
    ensures s[j] != top
    ensures s[i] != top && chats[s[j]].visibility == Pinned ==> chats[s[i]].visibility == Pinned
    ensures s[i] != top && (chats[s[i]].visibility == Pinned <==> chats[s[j]].visibility == Pinned) ==>
              && tj <= ti
              && (ti == tj && chats[s[j]].shown.Some? ==>
                    chats[s[i]].shown.Some? && chats[s[j]].shown.value.id <= chats[s[i]].shown.value.id)
  {
  }

  // ------------------------------------------------------- the filters agree

  /** The device chat, and it alone, carries the device mark; there is at most one. */
  ghost predicate DeviceChatIsMarked(chats: Chats) {
    && (forall id :: id in chats && id > LAST_SPECIAL ==>
          (chats[id].deviceTalk <==> IsSingleWith(chats, id, DEVICE)))
    && (forall x, y :: IsSingleWith(chats, x, DEVICE) && IsSingleWith(chats, y, DEVICE) ==> x == y)
  }

  lemma FiltersAgree(chats: Chats, id: ChatId, skip: ChatId)
    requires id in chats && DeviceChatIsMarked(chats) && IsLookup(chats, DEVICE, skip)
    ensures Selected(chats, id, skip) <==>
              !chats[id].visibility.Archived? && chats[id].blocked.Not? && CanForward(id, chats[id])
  {
    if id > LAST_SPECIAL && chats[id].blocked.Not? {
      assert id == skip <==> IsSingleWith(chats, id, DEVICE);
    }
  }

  /** Everything that creates, changes or removes chats. Only the lookup of a 1:1
      chat creates such a chat, and members change only in other chats. */
  datatype Step =
    | GetForContact(id: ChatId, contact: ContactId, blocked: Blocked, keyMissing: bool, now: int)
    | CreateMulti(id: ChatId, typ: ChatType, blocked: Blocked, now: int)
    | SetMembers(id: ChatId, rows: set<ContactId>, members: set<ContactId>)
    | Update(id: ChatId, blocked: Blocked, visibility: Visibility, listPost: Option<string>, keyMissing: bool,
             shown: Option<Shown>)
    | Delete(id: ChatId)

  predicate Enabled(chats: Chats, s: Step) {
    match s
    case GetForContact(id, _, _, _, _) => id > LAST_SPECIAL && id !in chats
    case CreateMulti(id, typ, _, _) => id > LAST_SPECIAL && id !in chats && !typ.Single?
    case SetMembers(id, _, _) => id in chats && !chats[id].typ.Single?
    case Update(id, _, _, _, _, _) => id in chats
    case Delete(_) => true
  }

  ghost function Apply(chats: Chats, s: Step): Chats
    requires Enabled(chats, s)
  {
    match s
    case GetForContact(id, contact, blocked, keyMissing, now) =>
      if exists x :: IsSingleWith(chats, x, contact) then chats
      else chats[id := Chat(Single, blocked, Normal, None, contact == DEVICE, {contact}, {contact}, keyMissing, now, None)]
    case CreateMulti(id, typ, blocked, now) =>
      chats[id := Chat(typ, blocked, Normal, None, false, {}, {}, false, now, None)]
    case SetMembers(id, rows, members) => chats[id := chats[id].(rows := rows, members := members)]
    case Update(id, blocked, visibility, listPost, keyMissing, shown) =>
      chats[id := chats[id].(blocked := blocked, visibility := visibility, listPost := listPost,
                             keyMissing := keyMissing, shown := shown)]
    case Delete(id) => chats - {id}
  }

  ghost predicate IsRun(run: seq<Chats>, steps: seq<Step>) {
    && |run| == |steps| + 1
    && (forall id :: id in run[0] ==> id <= LAST_SPECIAL)
    && forall i :: 0 <= i < |steps| ==> Enabled(run[i], steps[i]) && run[i + 1] == Apply(run[i], steps[i])
  }

  lemma {:induction false} DeviceChatStaysMarked(run: seq<Chats>, steps: seq<Step>, i: nat)
    requires IsRun(run, steps) && i < |run|
    ensures DeviceChatIsMarked(run[i])
  {
    if i > 0 {
      DeviceChatStaysMarked(run, steps, i - 1);
      assert run[i] == Apply(run[i - 1], steps[i - 1]);
    }
  }

  /** In every run the two filters agree on every chat. */
  lemma FiltersAgreeInEveryRun(run: seq<Chats>, steps: seq<Step>, i: nat, id: ChatId, skip: ChatId)
    requires IsRun(run, steps) && i < |run| && id in run[i] && IsLookup(run[i], DEVICE, skip)
    ensures Selected(run[i], id, skip) <==>
              !run[i][id].visibility.Archived? && run[i][id].blocked.Not? && CanForward(id, run[i][id])
  {
    DeviceChatStaysMarked(run, steps, i);
    FiltersAgree(run[i], id, skip);
  }

  /** Without the mark they do not: an unmarked device chat may be sent to but is
      not offered. */
  lemma UnmarkedDeviceChatDiffers(chats: Chats, id: ChatId, c: Chat)
    requires c == Chat(Single, Not, Normal, None, false, {DEVICE}, {DEVICE}, false, 0, None)
    requires id > LAST_SPECIAL && chats == map[id := c]
    ensures IsLookup(chats, DEVICE, id) && !Selected(chats, id, id) && CanForward(id, c)
  {
    assert IsSingleWith(chats, id, DEVICE);
  }
}
