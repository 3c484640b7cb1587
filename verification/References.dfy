/** The References header of an outgoing message: the last two references of the
    parent message, followed by the parent's own Message-ID. */
module References {
  import opened Options
  import opened Strings

  datatype Parent = Parent(mid: string, inReplyTo: string, references: string)

  function LastTwo(v: seq<string>): seq<string> {
    if |v| <= 2 then v else v[|v| - 2..]
  }

  /** The parent's references, or its In-Reply-To if it has none. */
  function Inherited(p: Parent): string {
    if p.references == "" then p.inReplyTo else p.references
  }

  function Tokens(p: Parent): seq<string> {
    var v := LastTwo(Split(Inherited(p), ' '));
    if p.mid != "" && p.mid !in v then v + [p.mid] else v
  }

  /** Computes In-Reply-To and References of a message with Message-ID `own`. */
  method Thread(selfTalk: bool, parent: Option<Parent>, own: string, inReplyTo: Option<string>)
    returns (inReplyTo': Option<string>, references: string)
    ensures selfTalk ==> inReplyTo' == inReplyTo && references == ""
    ensures !selfTalk && parent.None? ==> inReplyTo' == inReplyTo && references == own
    ensures !selfTalk && parent.Some? ==>
              && references == Join(Tokens(parent.value), ' ')
              && inReplyTo' == if inReplyTo.None? && parent.value.mid != "" then Some(parent.value.mid) else inReplyTo
  {
    inReplyTo' := inReplyTo;
    if selfTalk {
      references := "";
    } else if parent.Some? {
      var p := parent.value;
      if inReplyTo.None? && p.mid != "" { inReplyTo' := Some(p.mid); }
      var vec := LastTwo(Split(Inherited(p), ' '));
      if p.mid != "" && p.mid !in vec { vec := vec + [p.mid]; }
      if vec == [] {
        references := own;
      } else {
        references := Join(vec, ' ');
      }
    } else {
      references := own;
    }
  }

  /** For any parent at all the header is made of one to three tokens, and the parent's
      Message-ID, if it has one, is one of them. A reader who splits the header at
      blanks finds just these, exactly if the Message-ID has no blank; else it comes
      apart. */
  lemma AnyParent(p: Parent)
    ensures 1 <= |Tokens(p)| <= 3
    ensures p.mid != "" ==> p.mid in Tokens(p)
    ensures var v := LastTwo(Split(Inherited(p), ' '));
            Split(Join(Tokens(p), ' '), ' ') == if p.mid == "" || p.mid in v then v else v + Split(p.mid, ' ')
    ensures Split(Join(Tokens(p), ' '), ' ') == Tokens(p) <==> ' ' !in p.mid
  {
    var v := LastTwo(Split(Inherited(p), ' '));
    if p.mid == "" || p.mid in v {
      SplitJoin(v, ' ');
    } else {
      SplitJoinLast(v, p.mid, ' ');
      if ' ' in p.mid {
        assert (v + [p.mid])[|v|] == p.mid;
        assert (v + Split(p.mid, ' '))[|v|] == Split(p.mid, ' ')[0];
      } else {
        SplitWhole(p.mid, ' ');
      }
    }
  }

  lemma JoinStart(v: seq<string>)
    requires v != []
    ensures var h := Join(v, ' ');
            if v[0] != "" then h != "" && h[0] == v[0][0]
            else if |v| > 1 then h != "" && h[0] == ' '
            else h == ""
  {
  }

  /** The last blank of `s` is the one between `a` and `b`. */
  predicate LastBlank(s: string, a: string, b: string) {
    s == a + [' '] + b && ' ' !in b
  }

  /** Nothing, or a last blank with nothing or another blank before it. */
  ghost predicate BlankEnded(s: string) {
    s == "" || exists a, b :: LastBlank(s, a, b) && (a == "" || a[|a| - 1] == ' ')
  }

  lemma {:induction false} FindLastBlank(s: string) returns (a: string, b: string)
    requires ' ' in s
    ensures LastBlank(s, a, b)
  {
    var n := |s| - 1;
    assert s == s[..n] + [s[n]];
    if s[n] == ' ' {
      a, b := s[..n], "";
    } else {
      a, b := FindLastBlank(s[..n]);
      b := b + [s[n]];
    }
  }

  lemma LastTwoSnoc(v: seq<string>, x: string)
    requires v != []
    ensures LastTwo(v + [x])[0] == v[|v| - 1]
  {
  }

  lemma KeptAfter(s: string, a: string, b: string)
    requires LastBlank(s, a, b)
    ensures LastTwo(Split(s, ' '))[0] == "" <==> a == "" || a[|a| - 1] == ' '
  {
    SplitConcat(a, b, ' ');
    SplitWhole(b, ' ');
    LastTwoSnoc(Split(a, ' '), b);
    LastPiece(a, ' ');
  }

  /** What the two last pieces start with, said without splitting. */
  lemma FirstKept(s: string)
    ensures LastTwo(Split(s, ' '))[0] == "" <==> BlankEnded(s)
  {
    if ' ' in s {
      var a, b := FindLastBlank(s);
      KeptAfter(s, a, b);
      if BlankEnded(s) {
        var a', b' :| LastBlank(s, a', b') && (a' == "" || a'[|a'| - 1] == ' ');
        KeptAfter(s, a', b');
      }
    } else {
      SplitWhole(s, ' ');
    }
  }

  /** For any parent at all, the header is empty or starts with a blank exactly if what
      it inherits is empty, or has nothing or another blank before its last blank. The
      own Message-ID never takes its place. */
  lemma LeadingBlank(p: Parent)
    ensures var h := Join(Tokens(p), ' ');
            h == "" || h[0] == ' ' <==> BlankEnded(Inherited(p))
  {
    FirstKept(Inherited(p));
    JoinStart(Tokens(p));
  }

  /** A parent with references passes them on, whatever its In-Reply-To is. One without
      passes on its In-Reply-To, followed by its own Message-ID. */
  lemma FallbackToInReplyTo(mid: string, inReplyTo: string, other: string, references: string)
    requires mid != "" && ' ' !in inReplyTo && mid != inReplyTo
    ensures references != "" ==> Tokens(Parent(mid, inReplyTo, references)) == Tokens(Parent(mid, other, references))
    ensures Tokens(Parent(mid, inReplyTo, "")) == [inReplyTo, mid]
  {
    SplitWhole(inReplyTo, ' ');
  }

  /** A parent without headers is such a one. If it has no Message-ID either, the new
      message has no headers and becomes such a parent itself. */
  lemma BareParent(p: Parent)
    requires Inherited(p) == ""
    ensures Join(Tokens(p), ' ') == if p.mid == "" then "" else [' '] + p.mid
  {
    assert Split(Inherited(p), ' ') == [""];
    if p.mid != "" {
      assert Tokens(p) == ["", p.mid];
      assert ["", p.mid][1..] == [p.mid];
    }
  }

  // ------------------------------------------------------------ linear threads

  ghost predicate Distinct(ids: seq<string>) {
    && (forall i :: 0 <= i < |ids| ==> ids[i] != "" && ' ' !in ids[i])
    && forall i, j :: 0 <= i < j < |ids| ==> ids[i] != ids[j]
  }

  /** The In-Reply-To of message `k - 1`. */
  function ReplyTo(ids: seq<string>, k: nat): string
    requires 0 < k < |ids|
  {
    if k == 1 then "" else ids[k - 2]
  }

  /** The header of message `k` when every message answers the one before it, and the
      first one has the header `first`. */
  function Header(first: string, ids: seq<string>, k: nat): string
    requires k < |ids|
  {
    if k == 0 then first
    else Join(Tokens(Parent(ids[k - 1], ReplyTo(ids, k), Header(first, ids, k - 1))), ' ')
  }

  lemma HeaderStep(first: string, ids: seq<string>, k: nat)
    requires 0 < k < |ids|
    ensures Header(first, ids, k) == Join(Tokens(Parent(ids[k - 1], ReplyTo(ids, k), Header(first, ids, k - 1))), ' ')
  {
  }

  function Expected(ids: seq<string>, k: nat): seq<string>
    requires k < |ids|
  {
    if k == 0 then [ids[0]] else ids[if k <= 3 then 0 else k - 3..k]
  }

  lemma {:induction false} JoinNotEmpty(v: seq<string>)
    requires v != [] && forall i :: 0 <= i < |v| ==> v[i] != ""
    ensures Join(v, ' ') != ""
  {
  }

  lemma NextExpected(ids: seq<string>, k: nat)
    requires Distinct(ids) && 0 < k < |ids|
    ensures var v := LastTwo(Expected(ids, k - 1));
            Expected(ids, k) == if ids[k - 1] in v then v else v + [ids[k - 1]]
  {
    var v := LastTwo(Expected(ids, k - 1));
    if k > 1 {
      assert v == ids[if k <= 3 then 0 else k - 3..k - 1];
      assert ids[k - 1] !in v;
    }
  }

  lemma ExpectedIsWellFormed(ids: seq<string>, k: nat)
    requires Distinct(ids) && k < |ids|
    ensures Expected(ids, k) != []
    ensures forall i :: 0 <= i < |Expected(ids, k)| ==> Expected(ids, k)[i] != "" && ' ' !in Expected(ids, k)[i]
  {
  }

  lemma TokensAfter(mid: string, inReplyTo: string, v: seq<string>)
    requires v != [] && forall i :: 0 <= i < |v| ==> ' ' !in v[i]
    requires Join(v, ' ') != "" || inReplyTo == ""
    ensures Tokens(Parent(mid, inReplyTo, Join(v, ' '))) ==
              if mid != "" && mid !in LastTwo(v) then LastTwo(v) + [mid] else LastTwo(v)
  {
    SplitJoin(v, ' ');
  }

  lemma NextTokens(ids: seq<string>, k: nat, inReplyTo: string)
    requires Distinct(ids) && 0 < k < |ids|
    ensures Tokens(Parent(ids[k - 1], inReplyTo, Join(Expected(ids, k - 1), ' '))) == Expected(ids, k)
  {
    var before := Expected(ids, k - 1);
    ExpectedIsWellFormed(ids, k - 1);
    JoinNotEmpty(before);
    TokensAfter(ids[k - 1], inReplyTo, before);
    NextExpected(ids, k);
  }

  /** The first message refers to itself; every later one refers to exactly the
      last three messages before it, or to all of them if there are fewer. */
  lemma {:induction false} LinearThread(ids: seq<string>, k: nat)
    requires Distinct(ids) && k < |ids|
    ensures Header(ids[0], ids, k) == Join(Expected(ids, k), ' ')
  {
    if k > 0 {
      LinearThread(ids, k - 1);
      HeaderStep(ids[0], ids, k);
      NextTokens(ids, k, ReplyTo(ids, k));
    }
  }

  /** So these are the tokens a reader of the header finds. */
  lemma LinearThreadTokens(ids: seq<string>, k: nat)
    requires Distinct(ids) && k < |ids|
    ensures Split(Header(ids[0], ids, k), ' ') == Expected(ids, k)
  {
    LinearThread(ids, k);
    ExpectedIsWellFormed(ids, k);
    SplitJoin(Expected(ids, k), ' ');
  }

  /** The tokens in a thread whose first message has no headers. */
  function AfterBare(ids: seq<string>, k: nat): seq<string>
    requires k < |ids|
  {
    if k == 0 then [""] else if k <= 2 then [""] + ids[..k] else Expected(ids, k)
  }

  lemma NextAfterBare(ids: seq<string>, k: nat)
    requires Distinct(ids) && 0 < k < |ids| && k <= 3
    ensures var v := LastTwo(AfterBare(ids, k - 1));
            ids[k - 1] !in v && AfterBare(ids, k) == v + [ids[k - 1]]
  {
    var v := LastTwo(AfterBare(ids, k - 1));
    assert v == if k == 1 then [""] else if k == 2 then ["", ids[0]] else [ids[0], ids[1]];
  }

  lemma AfterBareStart(ids: seq<string>, k: nat, inReplyTo: string)
    requires Distinct(ids) && 0 < k < |ids| && k <= 3 && (k == 1 ==> inReplyTo == "")
    ensures Tokens(Parent(ids[k - 1], inReplyTo, Join(AfterBare(ids, k - 1), ' '))) == AfterBare(ids, k)
  {
    JoinStart(AfterBare(ids, k - 1));
    TokensAfter(ids[k - 1], inReplyTo, AfterBare(ids, k - 1));
    NextAfterBare(ids, k);
  }

  lemma AfterBareStep(ids: seq<string>, k: nat, inReplyTo: string)
    requires Distinct(ids) && 0 < k < |ids| && (k == 1 ==> inReplyTo == "")
    ensures Tokens(Parent(ids[k - 1], inReplyTo, Join(AfterBare(ids, k - 1), ' '))) == AfterBare(ids, k)
  {
    if k <= 3 {
      AfterBareStart(ids, k, inReplyTo);
    } else {
      NextTokens(ids, k, inReplyTo);
    }
  }

  lemma {:induction false} HeaderAfterBare(ids: seq<string>, k: nat)
    requires Distinct(ids) && k < |ids|
    ensures Header("", ids, k) == Join(AfterBare(ids, k), ' ')
  {
    if k > 0 {
      HeaderAfterBare(ids, k - 1);
      HeaderStep("", ids, k);
      AfterBareStep(ids, k, ReplyTo(ids, k));
    }
  }

  /** In a thread whose first message has no headers the blank travels on: exactly the
      two messages after it have a header that starts with one. Later messages refer to
      exactly the last three before them, like in any thread. */
  lemma ThreadAfterBare(ids: seq<string>, k: nat)
    requires Distinct(ids) && 0 < k < |ids|
    ensures Header("", ids, k) != "" && (Header("", ids, k)[0] == ' ' <==> k <= 2)
    ensures Split(Header("", ids, k), ' ') == (if k <= 2 then [""] else []) + Expected(ids, k)
  {
    HeaderAfterBare(ids, k);
    ExpectedIsWellFormed(ids, k);
    JoinStart(AfterBare(ids, k));
    SplitJoin(AfterBare(ids, k), ' ');
  }
}
