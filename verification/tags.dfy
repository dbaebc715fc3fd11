/**
 The registry of wire-message tags and the request/response pairing used by
 the synchronisation sub-protocols (catch-up, ensure-block, account and
 decommit). A tag is any string: the seventeen registered constants are
 only the names the node gives meaning to, so `Complement` is total over all
 strings and sends everything it does not pair to the unknown tag.
 */
module Tags {

  /** A message-class identifier. Handlers register by tag; any string is a tag. */
  type Tag = string

  const UnknownMsgTag: Tag := "??"
  const AgreementVoteTag: Tag := "AV"
  const MsgSkipTag: Tag := "MS"
  const NetPrioResponseTag: Tag := "NP"
  const PingTag: Tag := "pi"
  const PingReplyTag: Tag := "pj"
  const ProposalPayloadTag: Tag := "PP"
  const TxnTag: Tag := "TX"
  const UniAccountReqTag: Tag := "UA"
  const UniCatchupReqTag: Tag := "UC"
  const UniDecommitReqTag: Tag := "UD"
  const UniEnsBlockReqTag: Tag := "UE"
  const UniDecommitResTag: Tag := "UM"
  const UniAccountResTag: Tag := "UP"
  const UniEnsBlockResTag: Tag := "US"
  const UniCatchupResTag: Tag := "UT"
  const VoteBundleTag: Tag := "VB"

  /** The registered tags, in the order they are declared. */
  const Registry: seq<Tag> := [
    UnknownMsgTag, AgreementVoteTag, MsgSkipTag, NetPrioResponseTag,
    PingTag, PingReplyTag, ProposalPayloadTag, TxnTag,
    UniAccountReqTag, UniCatchupReqTag, UniDecommitReqTag, UniEnsBlockReqTag,
    UniDecommitResTag, UniAccountResTag, UniEnsBlockResTag, UniCatchupResTag,
    VoteBundleTag
  ]

  /** The synchronisation sub-protocols; each owns one request tag and one response tag. */
  datatype SyncFamily = Catchup | EnsBlock | Account | Decommit

  function RequestTag(f: SyncFamily): Tag {
    match f
    case Catchup => UniCatchupReqTag
    case EnsBlock => UniEnsBlockReqTag
    case Account => UniAccountReqTag
    case Decommit => UniDecommitReqTag
  }

  function ResponseTag(f: SyncFamily): Tag {
    match f
    case Catchup => UniCatchupResTag
    case EnsBlock => UniEnsBlockResTag
    case Account => UniAccountResTag
    case Decommit => UniDecommitResTag
  }

  /** True iff `t` is the request or the response tag of some sub-protocol. */
  predicate IsPaired(t: Tag) {
    exists f: SyncFamily :: t == RequestTag(f) || t == ResponseTag(f)
  }

  /**
   The matching request tag for a response tag and vice versa; every other
   string, the unknown tag included, maps to the unknown tag.
   */
  function Complement(t: Tag): (c: Tag)
    ensures forall f: SyncFamily :: t == RequestTag(f) ==> c == ResponseTag(f)
    ensures forall f: SyncFamily :: t == ResponseTag(f) ==> c == RequestTag(f)
    ensures !IsPaired(t) ==> c == UnknownMsgTag
    ensures c == UnknownMsgTag || IsPaired(c)
  {
    PairedTagsAreTheUniTags(t);
    var c :=
      if t == UniCatchupResTag then UniCatchupReqTag
      else if t == UniCatchupReqTag then UniCatchupResTag
      else if t == UniEnsBlockResTag then UniEnsBlockReqTag
      else if t == UniEnsBlockReqTag then UniEnsBlockResTag
      else if t == UniAccountResTag then UniAccountReqTag
      else if t == UniAccountReqTag then UniAccountResTag
      else if t == UniDecommitResTag then UniDecommitReqTag
      else if t == UniDecommitReqTag then UniDecommitResTag
      else UnknownMsgTag;
    PairedTagsAreTheUniTags(c);
    c
  }

  /** The pairing: the eight paired tags are exactly the `Uni*` tags of the registry. */
  lemma PairedTagsAreTheUniTags(t: Tag)
    ensures IsPaired(t) <==> t in {UniAccountReqTag, UniCatchupReqTag, UniDecommitReqTag, UniEnsBlockReqTag,
                                   UniDecommitResTag, UniAccountResTag, UniEnsBlockResTag, UniCatchupResTag}
  {
    if t in {UniAccountReqTag, UniCatchupReqTag, UniDecommitReqTag, UniEnsBlockReqTag,
             UniDecommitResTag, UniAccountResTag, UniEnsBlockResTag, UniCatchupResTag} {
      if t == UniAccountReqTag || t == UniAccountResTag {
        assert RequestTag(Account) == UniAccountReqTag;
      } else if t == UniCatchupReqTag || t == UniCatchupResTag {
        assert RequestTag(Catchup) == UniCatchupReqTag;
      } else if t == UniDecommitReqTag || t == UniDecommitResTag {
        assert RequestTag(Decommit) == UniDecommitReqTag;
      } else {
        assert RequestTag(EnsBlock) == UniEnsBlockReqTag;
      }
    }
  }

  /** Request and response tags never coincide, and each family's tags are its own. */
  lemma PairingIsInjective(f: SyncFamily, g: SyncFamily)
    ensures RequestTag(f) != ResponseTag(g)
    ensures RequestTag(f) == RequestTag(g) ==> f == g
    ensures ResponseTag(f) == ResponseTag(g) ==> f == g
  {
  }

  /** On the paired tags `Complement` undoes itself. */
  lemma ComplementInvolution(t: Tag)
    requires IsPaired(t)
    ensures Complement(Complement(t)) == t
    ensures Complement(t) != t
  {
    var f: SyncFamily :| t == RequestTag(f) || t == ResponseTag(f);
    PairingIsInjective(f, f);
  }

  /** The unknown tag is the only string `Complement` leaves unchanged. */
  lemma ComplementFixedPoint(t: Tag)
    ensures Complement(t) == t <==> t == UnknownMsgTag
  {
    if IsPaired(t) {
      ComplementInvolution(t);
      PairedTagsAreTheUniTags(t);
    } else {
      assert Complement(t) == UnknownMsgTag;
    }
  }

  /** Applying `Complement` three times is the same as applying it once. */
  lemma ComplementThrice(t: Tag)
    ensures Complement(Complement(Complement(t))) == Complement(t)
  {
    if IsPaired(t) {
      ComplementInvolution(t);
    } else {
      PairedTagsAreTheUniTags(UnknownMsgTag);
      assert Complement(UnknownMsgTag) == UnknownMsgTag;
    }
  }

  /** The nine registered tags outside the synchronisation pairs all map to the unknown tag. */
  lemma UnpairedRegisteredTags()
    ensures forall t :: t in {UnknownMsgTag, AgreementVoteTag, MsgSkipTag, NetPrioResponseTag, PingTag,
                              PingReplyTag, ProposalPayloadTag, TxnTag, VoteBundleTag}
              ==> Complement(t) == UnknownMsgTag
  {
    forall t | t in {UnknownMsgTag, AgreementVoteTag, MsgSkipTag, NetPrioResponseTag, PingTag,
                     PingReplyTag, ProposalPayloadTag, TxnTag, VoteBundleTag}
      ensures Complement(t) == UnknownMsgTag
    {
      PairedTagsAreTheUniTags(t);
    }
  }

  /** Every registered tag is two characters long and in the registry exactly once. */
  lemma RegistryWellFormed()
    ensures |Registry| == 17
    ensures forall i :: 0 <= i < |Registry| ==> |Registry[i]| == 2
    ensures forall i, j :: 0 <= i < j < |Registry| ==> Registry[i] != Registry[j]
  {
    RegistrySortedIgnoringCase();
    SortedDistinct(Registry);
  }

  /** Every string `Complement` can return is a registered tag. */
  lemma ComplementStaysInRegistry(t: Tag)
    ensures Complement(t) in Registry
  {
    PairedTagsAreTheUniTags(Complement(t));
  }

  // ---------------------------------------------------------------------------
  // Declaration order. The registry is sorted once letters are compared without
  // regard to case ("pi" and "pj" come before "PP"); by raw character code it is
  // not, since lower-case letters sort after every upper-case one.

  /** ASCII upper-casing of one character; other characters are unchanged. */
  function FoldCase(c: char): (u: char)
    ensures !('a' <= u <= 'z')
    ensures 'A' <= c <= 'Z' || 'a' <= c <= 'z' ==> 'A' <= u <= 'Z'
  {
    if 'a' <= c <= 'z' then (c as int - 32) as char else c
  }

  /** Strict lexicographic order on strings, letters compared without regard to case. */
  predicate LessIgnoringCase(a: string, b: string)
    decreases |a|
  {
    |b| > 0 &&
    (|a| == 0 ||
     FoldCase(a[0]) < FoldCase(b[0]) ||
     (FoldCase(a[0]) == FoldCase(b[0]) && LessIgnoringCase(a[1..], b[1..])))
  }

  /** Strict lexicographic order on strings by raw character code. */
  predicate LessByCode(a: string, b: string)
    decreases |a|
  {
    |b| > 0 && (|a| == 0 || a[0] < b[0] || (a[0] == b[0] && LessByCode(a[1..], b[1..])))
  }

  predicate SortedIgnoringCase(s: seq<string>) {
    forall i :: 0 <= i < |s| - 1 ==> LessIgnoringCase(s[i], s[i + 1])
  }

  lemma {:induction false} LessIgnoringCaseIrreflexive(a: string)
    ensures !LessIgnoringCase(a, a)
    decreases |a|
  {
    if |a| > 0 {
      LessIgnoringCaseIrreflexive(a[1..]);
    }
  }

  lemma {:induction false} LessIgnoringCaseTransitive(a: string, b: string, c: string)
    requires LessIgnoringCase(a, b) && LessIgnoringCase(b, c)
    ensures LessIgnoringCase(a, c)
    decreases |a|
  {
    if |a| > 0 && FoldCase(a[0]) == FoldCase(b[0]) && FoldCase(b[0]) == FoldCase(c[0]) {
      LessIgnoringCaseTransitive(a[1..], b[1..], c[1..]);
    }
  }

  /** Adjacent strict order extends to every pair of positions. */
  lemma {:induction false} SortedChain(s: seq<string>, i: int, j: int)
    requires SortedIgnoringCase(s)
    requires 0 <= i < j < |s|
    ensures LessIgnoringCase(s[i], s[j])
    decreases j - i
  {
    if j > i + 1 {
      SortedChain(s, i, j - 1);
      LessIgnoringCaseTransitive(s[i], s[j - 1], s[j]);
    }
  }

  /** A strictly sorted list holds no duplicates: the purpose of the declaration order. */
  lemma SortedDistinct(s: seq<string>)
    requires SortedIgnoringCase(s)
    ensures forall i, j :: 0 <= i < j < |s| ==> s[i] != s[j]
  {
    forall i, j | 0 <= i < j < |s|
      ensures s[i] != s[j]
    {
      SortedChain(s, i, j);
      LessIgnoringCaseIrreflexive(s[i]);
    }
  }

  /** The registry is in case-insensitive lexicographic order. */
  lemma RegistrySortedIgnoringCase()
    ensures SortedIgnoringCase(Registry)
  {
    assert LessIgnoringCase(UnknownMsgTag, AgreementVoteTag);
    assert LessIgnoringCase(AgreementVoteTag, MsgSkipTag);
    assert LessIgnoringCase(MsgSkipTag, NetPrioResponseTag);
    assert LessIgnoringCase(NetPrioResponseTag, PingTag);
    assert LessIgnoringCase(PingTag, PingReplyTag);
    assert LessIgnoringCase(PingReplyTag, ProposalPayloadTag);
    assert LessIgnoringCase(ProposalPayloadTag, TxnTag);
    assert LessIgnoringCase(TxnTag, UniAccountReqTag);
    assert LessIgnoringCase(UniAccountReqTag, UniCatchupReqTag);
    assert LessIgnoringCase(UniCatchupReqTag, UniDecommitReqTag);
    assert LessIgnoringCase(UniDecommitReqTag, UniEnsBlockReqTag);
    assert LessIgnoringCase(UniEnsBlockReqTag, UniDecommitResTag);
    assert LessIgnoringCase(UniDecommitResTag, UniAccountResTag);
    assert LessIgnoringCase(UniAccountResTag, UniEnsBlockResTag);
    assert LessIgnoringCase(UniEnsBlockResTag, UniCatchupResTag);
    assert LessIgnoringCase(UniCatchupResTag, VoteBundleTag);
  }

  /** By raw character code the registry is out of order: "pj" sorts after "PP". */
  lemma RegistryNotSortedByCode()
    ensures LessByCode(ProposalPayloadTag, PingReplyTag)
    ensures Registry[5] == PingReplyTag && Registry[6] == ProposalPayloadTag
  {
  }
}
