/**
 The names of the agreement state machine's action kinds. Each kind is an
 integer ordinal; `String` renders an ordinal by slicing one concatenated
 name string at the offsets held in a byte table, and renders any ordinal
 outside the table as "actionType(<decimal>)".
 */
module ActionTypes {
  import opened Wrappers
  import opened Decimal

  /** An action-kind ordinal; a signed integer, so negative values exist. */
  type ActionType = int

  /** The fifteen action kinds, in ordinal order. */
  datatype ActionKind =
    | Noop | Ignore | Broadcast | Relay | Disconnect
    | BroadcastVotes | VerifyVote | VerifyPayload | VerifyBundle | Ensure
    | Rezero | Attest | Assemble | Repropose | Checkpoint

  const KindCount: nat := 15

  /**
   The ordinal each kind is declared with: the position of its identifier in
   the list the name tables were generated from.
   */
  function Ordinal(k: ActionKind): (i: ActionType)
    ensures 0 <= i < KindCount == |GeneratorInput|
    ensures GeneratorInput[i] == Identifier(k)
  {
    match k
    case Noop => 0
    case Ignore => 1
    case Broadcast => 2
    case Relay => 3
    case Disconnect => 4
    case BroadcastVotes => 5
    case VerifyVote => 6
    case VerifyPayload => 7
    case VerifyBundle => 8
    case Ensure => 9
    case Rezero => 10
    case Attest => 11
    case Assemble => 12
    case Repropose => 13
    case Checkpoint => 14
  }

  /** The kind declared with ordinal `i`, if any. */
  function FromOrdinal(i: ActionType): (r: Option<ActionKind>)
    ensures r.Some? <==> 0 <= i < KindCount
    ensures r.Some? ==> Ordinal(r.value) == i
  {
    if i == 0 then Some(Noop)
    else if i == 1 then Some(Ignore)
    else if i == 2 then Some(Broadcast)
    else if i == 3 then Some(Relay)
    else if i == 4 then Some(Disconnect)
    else if i == 5 then Some(BroadcastVotes)
    else if i == 6 then Some(VerifyVote)
    else if i == 7 then Some(VerifyPayload)
    else if i == 8 then Some(VerifyBundle)
    else if i == 9 then Some(Ensure)
    else if i == 10 then Some(Rezero)
    else if i == 11 then Some(Attest)
    else if i == 12 then Some(Assemble)
    else if i == 13 then Some(Repropose)
    else if i == 14 then Some(Checkpoint)
    else None
  }

  /** The identifier each kind is declared under. */
  function Identifier(k: ActionKind): string {
    match k
    case Noop => "noop"
    case Ignore => "ignore"
    case Broadcast => "broadcast"
    case Relay => "relay"
    case Disconnect => "disconnect"
    case BroadcastVotes => "broadcastVotes"
    case VerifyVote => "verifyVote"
    case VerifyPayload => "verifyPayload"
    case VerifyBundle => "verifyBundle"
    case Ensure => "ensure"
    case Rezero => "rezero"
    case Attest => "attest"
    case Assemble => "assemble"
    case Repropose => "repropose"
    case Checkpoint => "checkpoint"
  }

  /** The ordinals are 0 to 14 without gaps or repeats: each kind has its own, and every one is used. */
  lemma OrdinalRoundTrip(k: ActionKind, i: ActionType)
    ensures FromOrdinal(Ordinal(k)) == Some(k)
    ensures FromOrdinal(i).Some? ==> Ordinal(FromOrdinal(i).value) == i
  {
  }

  // ---------------------------------------------------------------------------
  // The lookup tables, as generated.

  /**
   Every name, concatenated in ordinal order: the generated 128-character
   literal, written as the join of its fifteen pieces.
   */
  const ActionTypeName: string :=
    "noop" + "ignore" + "broadcast" + "relay" + "disconnect" +
    "broadcastVotes" + "verifyVote" + "verifyPayload" + "verifyBundle" + "ensure" +
    "rezero" + "attest" + "assemble" + "repropose" + "checkpoint"

  /** Where each name starts in `ActionTypeName`, followed by the total length; each entry is a byte. */
  const ActionTypeIndex: seq<nat> := [0, 4, 10, 19, 24, 34, 48, 58, 71, 83, 89, 95, 101, 109, 118, 128]

  /** The names the tables were generated from, in ordinal order. */
  const GeneratorInput: seq<string> := [
    "noop", "ignore", "broadcast", "relay", "disconnect",
    "broadcastVotes", "verifyVote", "verifyPayload", "verifyBundle", "ensure",
    "rezero", "attest", "assemble", "repropose", "checkpoint"
  ]

  /** Concatenation of a list of names. */
  function Concat(names: seq<string>): (s: string)
    decreases |names|
  {
    if |names| == 0 then "" else Concat(names[..|names| - 1]) + names[|names| - 1]
  }

  /** The start offset of every name in `Concat(names)`, followed by the total length. */
  function Offsets(names: seq<string>): (o: seq<nat>)
    ensures |o| == |names| + 1
    ensures o[0] == 0
    ensures o[|names|] == |Concat(names)|
    decreases |names|
  {
    if |names| == 0 then [0] else Offsets(names[..|names| - 1]) + [|Concat(names)|]
  }

  /** Slicing the concatenation between consecutive offsets recovers each name. */
  lemma {:induction false} SliceRecoversName(names: seq<string>, i: nat)
    requires i < |names|
    ensures Offsets(names)[i] <= Offsets(names)[i + 1] <= |Concat(names)|
    ensures Offsets(names)[i + 1] - Offsets(names)[i] == |names[i]|
    ensures Concat(names)[Offsets(names)[i]..Offsets(names)[i + 1]] == names[i]
    decreases |names|
  {
    var prefix := names[..|names| - 1];
    var last := names[|names| - 1];
    assert Concat(names) == Concat(prefix) + last;
    assert Offsets(names) == Offsets(prefix) + [|Concat(names)|];
    if i < |names| - 1 {
      SliceRecoversName(prefix, i);
      assert prefix[i] == names[i];
      assert Offsets(names)[i] == Offsets(prefix)[i];
      assert Offsets(names)[i + 1] == Offsets(prefix)[i + 1];
      assert Concat(names)[Offsets(names)[i]..Offsets(names)[i + 1]]
          == Concat(prefix)[Offsets(prefix)[i]..Offsets(prefix)[i + 1]];
    } else {
      assert Offsets(names)[i] == |Concat(prefix)|;
      assert Concat(names)[|Concat(prefix)|..] == last;
    }
  }

  /** The identifiers, listed in ordinal order. */
  lemma GeneratorInputInOrdinalOrder()
    ensures |GeneratorInput| == KindCount
    ensures forall k :: GeneratorInput[Ordinal(k)] == Identifier(k)
  {
  }

  /** The name string is the concatenation of the identifiers in ordinal order. */
  lemma NameMatchesGenerator()
    ensures ActionTypeName == Concat(GeneratorInput)
  {
    assert GeneratorInput[..0] == [];
    assert "" + GeneratorInput[0] == GeneratorInput[0];
    ConcatStep(GeneratorInput, 0);
    ConcatStep(GeneratorInput, 1);
    ConcatStep(GeneratorInput, 2);
    ConcatStep(GeneratorInput, 3);
    ConcatStep(GeneratorInput, 4);
    ConcatStep(GeneratorInput, 5);
    ConcatStep(GeneratorInput, 6);
    ConcatStep(GeneratorInput, 7);
    ConcatStep(GeneratorInput, 8);
    ConcatStep(GeneratorInput, 9);
    ConcatStep(GeneratorInput, 10);
    ConcatStep(GeneratorInput, 11);
    ConcatStep(GeneratorInput, 12);
    ConcatStep(GeneratorInput, 13);
    ConcatStep(GeneratorInput, 14);
    assert GeneratorInput[..15] == GeneratorInput;
  }

  /** The index table holds the start offset of each identifier in that concatenation. */
  lemma IndexMatchesGenerator()
    ensures ActionTypeIndex == Offsets(GeneratorInput)
  {
    assert GeneratorInput[..0] == [];
    ConcatStep(GeneratorInput, 0);
    ConcatStep(GeneratorInput, 1);
    ConcatStep(GeneratorInput, 2);
    ConcatStep(GeneratorInput, 3);
    ConcatStep(GeneratorInput, 4);
    ConcatStep(GeneratorInput, 5);
    ConcatStep(GeneratorInput, 6);
    ConcatStep(GeneratorInput, 7);
    ConcatStep(GeneratorInput, 8);
    ConcatStep(GeneratorInput, 9);
    ConcatStep(GeneratorInput, 10);
    ConcatStep(GeneratorInput, 11);
    ConcatStep(GeneratorInput, 12);
    ConcatStep(GeneratorInput, 13);
    ConcatStep(GeneratorInput, 14);
    assert GeneratorInput[..15] == GeneratorInput;
  }

  /** The tables are exactly what concatenating the kinds' identifiers produces. */
  lemma TablesMatchGenerator()
    ensures |GeneratorInput| == KindCount
    ensures forall k :: GeneratorInput[Ordinal(k)] == Identifier(k)
    ensures ActionTypeName == Concat(GeneratorInput)
    ensures ActionTypeIndex == Offsets(GeneratorInput)
  {
    GeneratorInputInOrdinalOrder();
    NameMatchesGenerator();
    IndexMatchesGenerator();
  }

  /** Appending one more name extends the concatenation by that name and the offsets by the new total. */
  lemma ConcatStep(names: seq<string>, k: nat)
    requires k < |names|
    ensures Concat(names[..k + 1]) == Concat(names[..k]) + names[k]
    ensures Offsets(names[..k + 1]) == Offsets(names[..k]) + [|Concat(names[..k + 1])|]
  {
    assert names[..k + 1][..k] == names[..k];
  }

  /**
   The index table is sound for slicing: it starts at 0, rises strictly,
   has one entry per kind plus one, ends at the length of the name string,
   each gap is one name's length, and every entry fits in a byte.
   */
  lemma IndexTableInvariants()
    ensures |ActionTypeIndex| == KindCount + 1
    ensures ActionTypeIndex[0] == 0
    ensures ActionTypeIndex[KindCount] == |ActionTypeName| == 128
    ensures forall i :: 0 <= i < KindCount ==> ActionTypeIndex[i] < ActionTypeIndex[i + 1]
    ensures forall i :: 0 <= i < KindCount ==> ActionTypeIndex[i + 1] - ActionTypeIndex[i] == |GeneratorInput[i]|
    ensures forall i :: 0 <= i <= KindCount ==> ActionTypeIndex[i] < 256
  {
    TablesMatchGenerator();
    forall i | 0 <= i < KindCount
      ensures ActionTypeIndex[i + 1] - ActionTypeIndex[i] == |GeneratorInput[i]|
    {
      SliceRecoversName(GeneratorInput, i);
    }
  }

  // ---------------------------------------------------------------------------
  // Rendering.

  const OutOfRangePrefix: string := "actionType("

  /** `s` is the fallback rendering of `i`: the prefix, a signed decimal that reads back as `i`, and ")". */
  predicate IsFallbackName(s: string, i: ActionType) {
    |s| >= |OutOfRangePrefix| + 2 &&
    s[..|OutOfRangePrefix|] == OutOfRangePrefix &&
    s[|s| - 1] == ')' &&
    ParseInt(s[|OutOfRangePrefix|..|s| - 1]) == Some(i)
  }

  /** The name of ordinal `i`: its identifier when `i` is a kind, the fallback rendering otherwise. */
  function String(i: ActionType): (s: string)
    ensures 0 <= i < KindCount ==> s == Identifier(FromOrdinal(i).value)
    ensures !(0 <= i < KindCount) ==> IsFallbackName(s, i)
  {
    TablesMatchGenerator();
    if i < 0 || i >= |ActionTypeIndex| - 1 then
      var s := OutOfRangePrefix + FormatInt(i) + ")";
      FormatIntRoundTrip(i);
      assert s[|OutOfRangePrefix|..|s| - 1] == FormatInt(i);
      s
    else
      SliceRecoversName(GeneratorInput, i);
      ActionTypeName[ActionTypeIndex[i]..ActionTypeIndex[i + 1]]
  }

  /** A few renderings worked out. */
  lemma StringExamples()
    ensures String(0) == "noop"
    ensures String(5) == "broadcastVotes"
    ensures String(14) == "checkpoint"
    ensures String(15) == "actionType(15)"
    ensures String(-1) == "actionType(-1)"
  {
  }

  /** No kind's name is empty, and none begins like a fallback rendering. */
  lemma NamesDistinguishable(k: ActionKind)
    ensures |Identifier(k)| > 0
    ensures |Identifier(k)| < |OutOfRangePrefix| || Identifier(k)[..|OutOfRangePrefix|] != OutOfRangePrefix
  {
    var n := Identifier(k);
    if |n| >= |OutOfRangePrefix| {
      assert n[..|OutOfRangePrefix|][0] == n[0] && n[..|OutOfRangePrefix|][1] == n[1];
    }
  }

  /** Different kinds have different identifiers. */
  lemma IdentifierInjective(a: ActionKind, b: ActionKind)
    ensures Identifier(a) == Identifier(b) ==> a == b
  {
  }

  /** An in-range name is never a fallback rendering. */
  lemma NameIsNotFallback(i: ActionType, j: ActionType)
    requires 0 <= i < KindCount && !(0 <= j < KindCount)
    ensures String(i) != String(j)
  {
    var n := String(i);
    NamesDistinguishable(FromOrdinal(i).value);
    assert |n| < |OutOfRangePrefix| || n[..|OutOfRangePrefix|] != OutOfRangePrefix;
  }

  /** Different ordinals, in range or not, always get different names. */
  lemma StringInjective(i: ActionType, j: ActionType)
    ensures String(i) == String(j) ==> i == j
  {
    var iIn := 0 <= i < KindCount;
    var jIn := 0 <= j < KindCount;
    if iIn && jIn {
      IdentifierInjective(FromOrdinal(i).value, FromOrdinal(j).value);
    } else if iIn {
      NameIsNotFallback(i, j);
    } else if jIn {
      NameIsNotFallback(j, i);
    } else if String(i) == String(j) {
      var s := String(i);
      assert ParseInt(s[|OutOfRangePrefix|..|s| - 1]) == Some(i);
      assert ParseInt(s[|OutOfRangePrefix|..|s| - 1]) == Some(j);
    }
  }
}
