/** ReadPins of crates/grafeo-engine/src/transaction/manager.rs: the epochs readers read at, ascending,
    each once with how many readers, standing for the multiset of readers the manager counts. */
module ReadPins {
  import opened Options
  import Transactions
  import TransactionLaws
  import TransactionTheorems

  datatype Pin = Pin(epoch: nat, readers: nat)

  ghost function One(pin: Pin): multiset<nat> {
    multiset{}[pin.epoch := pin.readers]
  }

  /** The readers the pins count. */
  ghost function Readers(pins: seq<Pin>): multiset<nat> {
    if pins == [] then multiset{} else One(pins[0]) + Readers(pins[1..])
  }

  ghost predicate Valid(pins: seq<Pin>) {
    && (forall i :: 0 <= i < |pins| ==> pins[i].readers > 0)
    && (forall i, j :: 0 <= i < j < |pins| ==> pins[i].epoch < pins[j].epoch)
  }

  lemma {:induction false} ReadersApart(a: seq<Pin>, b: seq<Pin>)
    ensures Readers(a + b) == Readers(a) + Readers(b)
  {
    if a == [] {
      assert a + b == b;
    } else {
      assert (a + b)[1..] == a[1..] + b;
      ReadersApart(a[1..], b);
    }
  }

  /** A reader is counted exactly at the epoch of some pin. */
  lemma {:induction false} ReadersAt(pins: seq<Pin>, x: nat)
    requires Valid(pins)
    ensures x in Readers(pins) <==> exists i :: 0 <= i < |pins| && pins[i].epoch == x
  {
    if pins != [] {
      var rest := pins[1..];
      ReadersAt(rest, x);
      if i :| 0 <= i < |rest| && rest[i].epoch == x { assert pins[i + 1] == rest[i]; }
      if i :| 0 <= i < |pins| && pins[i].epoch == x && i > 0 { assert rest[i - 1] == pins[i]; }
    }
  }

  lemma ReadersOf(pin: Pin)
    ensures Readers([pin]) == One(pin) && Readers([]) == multiset{}
  {
    assert [pin][1..] == [];
  }

  lemma ReadersAround(a: seq<Pin>, pin: Pin, b: seq<Pin>)
    ensures Readers(a + [pin] + b) == Readers(a) + One(pin) + Readers(b)
  {
    hide Readers, One;
    ReadersApart(a + [pin], b);
    ReadersApart(a, [pin]);
    ReadersOf(pin);
  }

  lemma OneMore(pin: Pin)
    ensures One(Pin(pin.epoch, pin.readers + 1)) == One(pin) + multiset{pin.epoch}
    ensures One(Pin(pin.epoch, 1)) == multiset{pin.epoch} && One(Pin(pin.epoch, 0)) == multiset{}
  {
  }

  /** One reader more or less at the middle of three parts. */
  lemma ReadersChange(a: seq<Pin>, pin: Pin, b: seq<Pin>)
    ensures Readers(a + [Pin(pin.epoch, pin.readers + 1)] + b) == Readers(a + [pin] + b) + multiset{pin.epoch}
    ensures pin.readers == 1 ==> Readers(a + [pin] + b) == Readers(a + b) + multiset{pin.epoch}
  {
    hide Readers, One;
    ReadersAround(a, Pin(pin.epoch, pin.readers + 1), b);
    ReadersAround(a, pin, b);
    ReadersApart(a, b);
    OneMore(pin);
  }

  /** In every run of the manager, no reader it counts is past the published epoch: what HoldPublished asks. */
  lemma NoneBeyondPublished(steps: seq<TransactionLaws.Step>, pins: seq<Pin>, i: nat)
    requires TransactionTheorems.Legal(TransactionLaws.START, steps) && Valid(pins) && i < |pins|
    requires Readers(pins) == TransactionTheorems.Run(TransactionLaws.START, steps).m.readers
    ensures pins[i].epoch <= TransactionTheorems.Run(TransactionLaws.START, steps).m.published
  {
    hide *;
    TransactionTheorems.Reachable(steps);
    var w := TransactionTheorems.Run(TransactionLaws.START, steps);
    ReadersAt(pins, pins[i].epoch);
    CountedBelow(w, pins[i].epoch);
  }

  lemma CountedBelow(w: TransactionLaws.World, e: nat)
    requires TransactionLaws.Inv(w) && e in w.m.readers
    ensures e <= w.m.published
  {
    hide TransactionLaws.Epochs, TransactionLaws.Tables, TransactionLaws.Guards, TransactionLaws.Retained;
    hide TransactionLaws.AllCompatible;
  }

  class Pins {
    var epochs: seq<Pin>

    constructor ()
      ensures Valid(epochs) && Readers(epochs) == multiset{}
    {
      epochs := [];
    }

    /** binary_search_by_key. */
    method Find(epoch: nat) returns (found: bool, index: nat)
      requires Valid(epochs)
      ensures index <= |epochs| && (found ==> index < |epochs| && epochs[index].epoch == epoch)
      ensures forall i :: 0 <= i < index ==> epochs[i].epoch < epoch
      ensures forall i :: (if found then index + 1 else index) <= i < |epochs| ==> epoch < epochs[i].epoch
    {
      var low, high := 0, |epochs|;
      while low < high
        invariant 0 <= low <= high <= |epochs|
        invariant forall i :: 0 <= i < low ==> epochs[i].epoch < epoch
        invariant forall i :: high <= i < |epochs| ==> epoch < epochs[i].epoch
      {
        var mid := (low + high) / 2;
        if epochs[mid].epoch == epoch { return true, mid; }
        if epochs[mid].epoch < epoch { low := mid + 1; } else { high := mid; }
      }
      return false, low;
    }

    /** hold_published: a reader at the published epoch, which no counted epoch is past. */
    method HoldPublished(published: nat)
      requires Valid(epochs) && forall i :: 0 <= i < |epochs| ==> epochs[i].epoch <= published
      modifies this
      ensures Valid(epochs) && Readers(epochs) == old(Readers(epochs)) + multiset{published}
    {
      var n := |epochs|;
      if n > 0 && epochs[n - 1].epoch == published {
        Add(n - 1);
      } else {
        Place(n, published);
      }
    }

    /** hold_at: a reader at an epoch, in its place. */
    method HoldAt(epoch: nat)
      requires Valid(epochs)
      modifies this
      ensures Valid(epochs) && Readers(epochs) == old(Readers(epochs)) + multiset{epoch}
    {
      var found, index := Find(epoch);
      if found { Add(index); } else { Place(index, epoch); }
    }

    method Add(index: nat)
      requires Valid(epochs) && index < |epochs|
      modifies this
      ensures Valid(epochs) && Readers(epochs) == old(Readers(epochs)) + multiset{old(epochs[index].epoch)}
    {
      hide Readers;
      var pin := epochs[index];
      assert epochs == epochs[..index] + [pin] + epochs[index + 1..];
      ReadersChange(epochs[..index], pin, epochs[index + 1..]);
      var more := Pin(pin.epoch, pin.readers + 1);
      assert epochs[index := more] == epochs[..index] + [more] + epochs[index + 1..];
      epochs := epochs[index := more];
    }

    method Place(index: nat, epoch: nat)
      requires Valid(epochs) && index <= |epochs|
      requires forall i :: 0 <= i < index ==> epochs[i].epoch < epoch
      requires forall i :: index <= i < |epochs| ==> epoch < epochs[i].epoch
      modifies this
      ensures Valid(epochs) && Readers(epochs) == old(Readers(epochs)) + multiset{epoch}
    {
      hide Readers;
      assert epochs == epochs[..index] + epochs[index..];
      ReadersChange(epochs[..index], Pin(epoch, 1), epochs[index..]);
      epochs := epochs[..index] + [Pin(epoch, 1)] + epochs[index..];
    }

    /** release: one reader less at an epoch; nothing where none is counted. */
    method Release(epoch: nat)
      requires Valid(epochs)
      modifies this
      ensures Valid(epochs) && Readers(epochs) == old(Readers(epochs)) - multiset{epoch}
    {
      hide Readers;
      var found, index := Find(epoch);
      ReadersAt(epochs, epoch);
      if found { Drop(index); }
    }

    method Drop(index: nat)
      requires Valid(epochs) && index < |epochs|
      modifies this
      ensures Valid(epochs) && Readers(epochs) == old(Readers(epochs)) - multiset{old(epochs[index].epoch)}
    {
      hide Readers;
      var pin := epochs[index];
      var less := Pin(pin.epoch, pin.readers - 1);
      assert epochs == epochs[..index] + [pin] + epochs[index + 1..];
      if less.readers == 0 {
        ReadersChange(epochs[..index], pin, epochs[index + 1..]);
        epochs := epochs[..index] + epochs[index + 1..];
      } else {
        ReadersChange(epochs[..index], less, epochs[index + 1..]);
        assert epochs[index := less] == epochs[..index] + [less] + epochs[index + 1..];
        epochs := epochs[index := less];
      }
    }

    /** oldest: the least epoch a reader is counted at. */
    method Oldest() returns (r: Option<nat>)
      requires Valid(epochs)
      ensures r.None? <==> Readers(epochs) == multiset{}
      ensures r.Some? ==> r.value in Readers(epochs) && forall x :: x in Readers(epochs) ==> r.value <= x
    {
      if epochs == [] { return None; }
      hide Readers;
      forall x | x in Readers(epochs) ensures epochs[0].epoch <= x {
        ReadersAt(epochs, x);
      }
      ReadersAt(epochs, epochs[0].epoch);
      r := Some(epochs[0].epoch);
    }

    /** read_horizon: what the manager's counted readers make it. */
    method Horizon(ghost m: Transactions.Manager, published: nat) returns (h: nat)
      requires Valid(epochs) && Readers(epochs) == m.readers && published == m.published
      ensures Transactions.IsHorizon(m, h)
    {
      hide Readers, Valid;
      var oldest := Oldest();
      h := if oldest.Some? && oldest.value < published then oldest.value else published;
    }
  }
}
