/** Member lists that devices of one user synchronise: outgoing broadcasts, and
    groups before they are promoted. Neither keeps tombstones, which is what lets
    a sync message be applied with plain insertions. */
module ContactSync {
  import opened Ids
  import opened Membership

  datatype Kind = Group | OutBroadcast
  datatype Chat = Chat(kind: Kind, promoted: bool, rows: Table)

  ghost predicate NoTombstones(t: Table) {
    forall c :: c in t ==> t[c].add >= t[c].rem
  }

  /** Removals are traced only in promoted groups. */
  predicate Traced(chat: Chat) {
    chat.promoted && chat.kind.Group?
  }

  function AddMember(chat: Chat, now: int, c: ContactId): Chat {
    if c in Members(chat.rows) then chat else chat.(rows := AddOne(chat.rows, now, c))
  }

  function RemoveMember(chat: Chat, now: int, c: ContactId): Chat {
    chat.(rows := if Traced(chat) then Remove(chat.rows, now, c) else Erase(chat.rows, c))
  }

  /** Returns whether the contact had a row, so that others are to be told. */
  method RemoveContactFromChat(table: ChatContacts, kind: Kind, promoted: bool, now: int, c: ContactId)
    returns (removed: bool)
    modifies table
    ensures table.rows == RemoveMember(Chat(kind, promoted, old(table.rows)), now, c).rows
    ensures removed <==> c in old(table.rows)
  {
    if promoted && !kind.OutBroadcast? {
      removed := table.RemoveFromChatContactsTable(now, c);
    } else {
      removed := table.RemoveWithoutTrace(c);
    }
  }

  /** A sync message lists the contacts another device has. */
  function Sync(chat: Chat, contacts: set<ContactId>): Chat {
    if contacts == Members(chat.rows) then chat
    else
      var kept := if chat.kind.OutBroadcast? then chat.rows else map[];
      chat.(rows := map c | c in kept.Keys + contacts :: if c in kept then kept[c] else Row(0, 0))
  }

  method SetContactsByFingerprints(chat: Chat, contacts: set<ContactId>)
    returns (chat': Chat, broadcastAdded: seq<ContactId>)
    ensures chat' == Sync(chat, contacts)
    ensures forall c :: c in broadcastAdded <==>
              c in chat'.rows && c !in chat.rows && chat.kind.OutBroadcast?
  {
    chat', broadcastAdded := chat, [];
    if contacts == Members(chat.rows) { return; }
    var kept := if chat.kind.OutBroadcast? then chat.rows else map[];
    var rows := kept;
    var todo := contacts;
    while todo != {}
      invariant todo <= contacts && rows.Keys == kept.Keys + (contacts - todo)
      invariant forall c :: c in rows ==> rows[c] == if c in kept then kept[c] else Row(0, 0)
      invariant forall c :: c in broadcastAdded <==> c in rows && c !in kept && chat.kind.OutBroadcast?
      decreases todo
    {
      var c :| c in todo;
      if c !in rows {
        rows := rows[c := Row(0, 0)];
        if chat.kind.OutBroadcast? { broadcastAdded := broadcastAdded + [c]; }
      }
      todo := todo - {c};
    }
    chat' := chat.(rows := rows);
    assert rows == Sync(chat, contacts).rows;
  }

  /** Adding and removing: exactly the one contact comes or goes. A removal leaves a trace
      exactly in promoted groups, for contacts with a row. */
  lemma MemberChanges(chat: Chat, now: int, c: ContactId)
    requires now >= 0
    ensures Members(AddMember(chat, now, c).rows) == Members(chat.rows) + {c}
    ensures Members(RemoveMember(chat, now, c).rows) == Members(chat.rows) - {c}
    ensures IsPast(RemoveMember(chat, now, c).rows, c) <==>
              chat.promoted && chat.kind.Group? && c in chat.rows
    ensures forall x :: x in RemoveMember(chat, now, c).rows && x != c ==>
              x in chat.rows && RemoveMember(chat, now, c).rows[x] == chat.rows[x]
    ensures AddMember(chat, now, c).kind == RemoveMember(chat, now, c).kind == chat.kind
    ensures AddMember(chat, now, c).promoted == RemoveMember(chat, now, c).promoted == chat.promoted
  {
  }

  /** A list that is already right changes nothing. In a group a sync sets the members
      outright. In a broadcast it keeps all rows, and adds to the members exactly if no listed contact has a tombstone; such a contact stays out. */
  lemma SyncMeaning(chat: Chat, contacts: set<ContactId>)
    ensures contacts == Members(chat.rows) ==> Sync(chat, contacts) == chat
    ensures chat.kind.OutBroadcast? ==>
              forall c :: c in chat.rows ==> c in Sync(chat, contacts).rows && Sync(chat, contacts).rows[c] == chat.rows[c]
    ensures chat.kind.Group? ==> Members(Sync(chat, contacts).rows) == contacts
    ensures chat.kind.OutBroadcast? ==>
              (Members(Sync(chat, contacts).rows) == Members(chat.rows) + contacts <==>
               forall c :: c in contacts ==> !IsPast(chat.rows, c))
  {
    var after := Members(Sync(chat, contacts).rows);
    if chat.kind.OutBroadcast? && contacts != Members(chat.rows) {
      forall c | c in contacts ensures c in after <==> !IsPast(chat.rows, c) {}
      forall c | c !in contacts ensures c in after <==> c in Members(chat.rows) {}
    }
  }

  // ------------------------------------------------------------ whole runs

  /** `Other` stands for anything else that happens to a promoted group. */
  datatype Step =
    | Add(now: int, c: ContactId)
    | Drop(now: int, c: ContactId)
    | Receive(contacts: set<ContactId>)
    | Promote
    | Other(rows: Table)

  predicate Enabled(chat: Chat, s: Step) {
    match s
    case Add(now, _) => now >= 0
    case Other(_) => Traced(chat)
    case _ => true
  }

  function Apply(chat: Chat, s: Step): Chat {
    match s
    case Add(now, c) => AddMember(chat, now, c)
    case Drop(now, c) => RemoveMember(chat, now, c)
    case Receive(contacts) => Sync(chat, contacts)
    case Promote => chat.(promoted := true)
    case Other(rows) => chat.(rows := rows)
  }

  ghost predicate IsRun(run: seq<Chat>, steps: seq<Step>) {
    && |run| == |steps| + 1
    && run[0].rows == map[]
    && forall i :: 0 <= i < |steps| ==>
         Enabled(run[i], steps[i]) && run[i + 1] == Apply(run[i], steps[i])
  }

  lemma {:induction false} UntracedChatsKeepNoTombstones(run: seq<Chat>, steps: seq<Step>, i: nat)
    requires IsRun(run, steps) && i < |run|
    ensures run[i].kind == run[0].kind
    ensures !Traced(run[i]) ==> NoTombstones(run[i].rows)
  {
    if i > 0 {
      UntracedChatsKeepNoTombstones(run, steps, i - 1);
      assert run[i] == Apply(run[i - 1], steps[i - 1]);
    }
  }

  /** So in every run a broadcast after a sync has exactly the old members and the
      listed ones, and a group has exactly the listed ones. */
  lemma SyncInEveryRun(run: seq<Chat>, steps: seq<Step>, i: nat)
    requires IsRun(run, steps) && i < |steps| && steps[i].Receive?
    ensures Members(run[i + 1].rows) ==
              (if run[0].kind.OutBroadcast? then Members(run[i].rows) else {}) + steps[i].contacts
  {
    UntracedChatsKeepNoTombstones(run, steps, i);
    SyncMeaning(run[i], steps[i].contacts);
  }
}
