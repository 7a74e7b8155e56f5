/**
 * The channel registry and the family classifier of
 * board_common/native/spi_eusci_native.c: `BASE_ADDRESSES` maps a logical
 * channel (an `eusci_t`) to the base address of its controller, and
 * `is_eusci_a_block` decides from a base address whether the controller is an
 * eUSCI_A or an eUSCI_B block.
 *
 * Which instances exist is decided at build time by the device header
 * (`#ifdef EUSCI_A0_BASE` ... `#ifdef EUSCI_B3_BASE`). A `Build` records the
 * base addresses the header defines, A blocks in the order A0..A3 and then
 * B blocks in the order B0..B3, exactly as the table lists them.
 */
module Registry {

  /** A 16-bit peripheral base address (`uint16_t`). */
  type Address = x: int | 0 <= x < 0x1_0000

  /** The two controller families; each has its own register layout. */
  datatype Family = EusciA | EusciB

  /** The base addresses the device header defines, per family and in instance order. */
  datatype Build = Build(aBases: seq<Address>, bBases: seq<Address>)

  predicate Distinct(s: seq<Address>)
  {
    forall i, j :: 0 <= i < j < |s| ==> s[i] != s[j]
  }

  /** At most four instances per family (A0..A3, B0..B3), and no two share an address. */
  predicate Wf(b: Build)
  {
    |b.aBases| <= 4 && |b.bBases| <= 4 && Distinct(b.aBases + b.bBases)
  }

  /** `EUSCI_count`: the number of logical channels. */
  function EusciCount(b: Build): (n: nat)
    ensures Wf(b) ==> n <= 8
  {
    |b.aBases| + |b.bBases|
  }

  /** The table `BASE_ADDRESSES`, indexed by logical channel. */
  function BaseAddresses(b: Build): (t: seq<Address>)
    ensures |t| == EusciCount(b)
  {
    b.aBases + b.bBases
  }

  /**
   * The layout of `BASE_ADDRESSES`: the compiled-in A bases in instance
   * order, then the B bases in instance order, with no address twice.
   */
  lemma TableLayout(b: Build)
    requires Wf(b)
    ensures forall i :: 0 <= i < |b.aBases| ==> BaseAddresses(b)[i] == b.aBases[i]
    ensures forall i :: 0 <= i < |b.bBases| ==> BaseAddresses(b)[|b.aBases| + i] == b.bBases[i]
    ensures Distinct(BaseAddresses(b))
  {
  }

  /** `BASE_ADDRESSES[eusci]`; an absent channel is excluded at build time, so it is a caller obligation. */
  function BaseAddress(b: Build, eusci: nat): (r: Address)
    requires eusci < EusciCount(b)
    ensures r in BaseAddresses(b)
    ensures eusci < |b.aBases| ==> r in b.aBases
    ensures eusci >= |b.aBases| ==> r in b.bBases
  {
    BaseAddresses(b)[eusci]
  }

  /** The family a logical channel's controller physically belongs to. */
  function FamilyOfChannel(b: Build, eusci: nat): Family
  {
    if eusci < |b.aBases| then EusciA else EusciB
  }

  /**
   * The disjunction `false || x == A0 || x == A1 || ...` of `is_eusci_a_block`,
   * one comparison per compiled-in A base, left to right.
   */
  function OrChain(bases: seq<Address>, x: Address): (r: bool)
    ensures r <==> x in bases
  {
    if bases == [] then false
    else
      assert bases == bases[..|bases| - 1] + [bases[|bases| - 1]];
      OrChain(bases[..|bases| - 1], x) || x == bases[|bases| - 1]
  }

  /** `is_eusci_a_block`: true exactly for the compiled-in A base addresses. */
  function IsEusciABlock(b: Build, x: Address): (r: bool)
    ensures r <==> x in b.aBases
  {
    OrChain(b.aBases, x)
  }

  /**
   * The classifier agrees with the table: the base address of channel `eusci`
   * is classified as an A block exactly when the channel is one of the A
   * instances. This is why a handle always takes the path of its own family.
   */
  lemma ClassifierAgrees(b: Build, eusci: nat)
    requires Wf(b) && eusci < EusciCount(b)
    ensures IsEusciABlock(b, BaseAddress(b, eusci)) <==> FamilyOfChannel(b, eusci) == EusciA
  {
    var t := BaseAddresses(b);
    if eusci >= |b.aBases| {
      forall j | 0 <= j < |b.aBases| ensures b.aBases[j] != t[eusci] {
        assert b.aBases[j] == t[j];
      }
    }
  }

  /**
   * The controller that answers at base address `x` on the bus: the first
   * table position holding `x`.
   */
  function SlotOf(t: seq<Address>, x: Address): (k: nat)
    requires x in t
    ensures k < |t| && t[k] == x
    ensures forall j :: 0 <= j < k ==> t[j] != x
  {
    if t[0] == x then 0 else 1 + SlotOf(t[1..], x)
  }

  /** With no duplicate addresses, decoding the address of slot `i` finds slot `i` again. */
  lemma SlotOfBase(b: Build, eusci: nat)
    requires Wf(b) && eusci < EusciCount(b)
    ensures SlotOf(BaseAddresses(b), BaseAddress(b, eusci)) == eusci
  {
    var t := BaseAddresses(b);
    assert forall j :: 0 <= j < eusci ==> t[j] != t[eusci];
  }
}
