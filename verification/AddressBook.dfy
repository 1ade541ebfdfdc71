/** The list of known addresses, `addAddr` of BitMRC/BitMRC.cpp. */
module AddressBook {
  import opened Positional

  /** `waiting` is set as long as the public keys of the address have not come in. */
  datatype Contact = Contact(address: string, waiting: bool, signing: seq<byte>, encryption: seq<byte>,
                             nonceTrials: int, extraBytes: int)

  function Position(book: seq<Contact>, address: string): (i: nat)
    ensures i <= |book|
    ensures i < |book| ==> book[i].address == address
    ensures forall k :: 0 <= k < i ==> book[k].address != address
  {
    if book == [] || book[0].address == address then 0 else 1 + Position(book[1..], address)
  }

  /** A contact without an address is ignored; a known one is only replaced when its keys were missing. */
  function Put(book: seq<Contact>, c: Contact): seq<Contact> {
    var i := Position(book, c.address);
    if c.address == "" then book
    else if i == |book| then book + [c]
    else if !c.waiting && book[i].waiting then book[i := c]
    else book
  }

  function Book(history: seq<Contact>): seq<Contact> {
    if history == [] then [] else Put(Book(history[..|history| - 1]), history[|history| - 1])
  }

  /** The first contact with the address that has its keys, else the first one at all. */
  function Best(history: seq<Contact>, address: string): (i: nat)
    ensures i <= |history|
    ensures i < |history| ==> history[i].address == address
  {
    var known := FirstKnown(history, address);
    if known < |history| then known else Position(history, address)
  }

  function FirstKnown(history: seq<Contact>, address: string): (i: nat)
    ensures i <= |history|
    ensures i < |history| ==> history[i].address == address && !history[i].waiting
    ensures forall k :: 0 <= k < i ==> history[k].address != address || history[k].waiting
  {
    if history == [] || (history[0].address == address && !history[0].waiting) then 0
    else 1 + FirstKnown(history[1..], address)
  }

  ghost predicate NoRepeats(book: seq<Contact>) {
    forall i, j :: 0 <= i < j < |book| ==> book[i].address != book[j].address
  }

  lemma PositionUnique(book: seq<Contact>, i: nat, address: string)
    requires i <= |book| && (i < |book| ==> book[i].address == address)
    requires forall k :: 0 <= k < i ==> book[k].address != address
    ensures Position(book, address) == i
  {
  }

  lemma FirstKnownUnique(history: seq<Contact>, i: nat, address: string)
    requires i <= |history| && (i < |history| ==> history[i].address == address && !history[i].waiting)
    requires forall k :: 0 <= k < i ==> history[k].address != address || history[k].waiting
    ensures FirstKnown(history, address) == i
  {
  }

  /** Where the two searches end in a longer list. */
  lemma SearchLonger(history: seq<Contact>, c: Contact, address: string)
    ensures var p, n := Position(history, address), |history|;
            Position(history + [c], address) == if p < n || c.address == address then p else n + 1
    ensures var k, n := FirstKnown(history, address), |history|;
            FirstKnown(history + [c], address) == if k < n || (c.address == address && !c.waiting) then k else n + 1
  {
    var longer, n := history + [c], |history|;
    assert forall k :: 0 <= k < n ==> longer[k] == history[k];
    var p, f := Position(history, address), FirstKnown(history, address);
    PositionUnique(longer, if p < n || c.address == address then p else n + 1, address);
    FirstKnownUnique(longer, if f < n || (c.address == address && !c.waiting) then f else n + 1, address);
  }

  /** Whatever is added in whatever order: an address stands in the list once, exactly if it was ever
      added, with the first keys that came for it. */
  lemma {:induction false} BookHoldsBest(history: seq<Contact>, address: string)
    requires address != ""
    ensures NoRepeats(Book(history))
    ensures var i, b := Position(Book(history), address), Best(history, address);
            && (i < |Book(history)| <==> b < |history|)
            && (b < |history| ==> Book(history)[i] == history[b])
  {
    hide Position, FirstKnown;
    if history != [] {
      var init, c := history[..|history| - 1], history[|history| - 1];
      assert history == init + [c];
      BookHoldsBest(init, address);
      SearchLonger(init, c, address);
      PutFound(Book(init), c, address);
    }
  }

  /** The same without the search: what stands in the list for an address is the first contact that came
      with its keys, or the first that came at all if none has; and it is the only one. */
  lemma FirstKeysStay(history: seq<Contact>, c: Contact)
    ensures c in Book(history) <==>
              && c.address != ""
              && (exists k :: 0 <= k < |history| && history[k] == c && IsFirst(history, k))
  {
    hide Position, FirstKnown;
    var address := c.address;
    if c in Book(history) {
      NoBlank(history, c);
      BookHoldsBest(history, address);
      var i, b := Position(Book(history), address), Best(history, address);
      var j :| 0 <= j < |Book(history)| && Book(history)[j] == c;
      assert i == j;
      BestIsFirst(history, b);
    }
    if address != "" {
      if k :| 0 <= k < |history| && history[k] == c && IsFirst(history, k) {
        BookHoldsBest(history, address);
        FirstIsBest(history, k);
      }
    }
  }

  /** No contact before it has the address with its keys; and if it has none itself, no other has them and
      none before it has the address. */
  ghost predicate IsFirst(history: seq<Contact>, k: nat)
    requires k < |history|
  {
    var address := history[k].address;
    && (forall j :: 0 <= j < k && history[j].address == address ==> history[j].waiting && !history[k].waiting)
    && (history[k].waiting ==> forall j :: 0 <= j < |history| && history[j].address == address ==> history[j].waiting)
  }

  lemma BestIsFirst(history: seq<Contact>, b: nat)
    requires b < |history| && b == Best(history, history[b].address)
    ensures IsFirst(history, b)
  {
    hide Position, FirstKnown;
  }

  lemma FirstIsBest(history: seq<Contact>, k: nat)
    requires k < |history| && IsFirst(history, k)
    ensures Best(history, history[k].address) == k
  {
    hide Position, FirstKnown;
    var address := history[k].address;
    if history[k].waiting {
      FirstKnownUnique(history, |history|, address);
      PositionUnique(history, k, address);
    } else {
      FirstKnownUnique(history, k, address);
    }
  }

  lemma {:induction false} NoBlank(history: seq<Contact>, c: Contact)
    requires c in Book(history)
    ensures c.address != "" && c in history
  {
    hide Position;
    if history != [] {
      var init, last := history[..|history| - 1], history[|history| - 1];
      assert history == init + [last];
      if c != last {
        assert c in Book(init);
      }
      if c in Book(init) {
        NoBlank(init, c);
      }
    }
  }

  /** The list only grows at its end, and nothing in it changes its place. */
  lemma PlacesStay(book: seq<Contact>, c: Contact, i: nat)
    requires i < |book|
    ensures |book| <= |Put(book, c)| <= |book| + 1 && Put(book, c)[i].address == book[i].address
    ensures |Put(book, c)| > |book| ==> Put(book, c)[|book|] == c
  {
    hide Position;
  }

  /** One addition, seen from one address. */
  lemma PutFound(book: seq<Contact>, c: Contact, address: string)
    requires NoRepeats(book) && address != ""
    ensures NoRepeats(Put(book, c))
    ensures var i, i' := Position(book, address), Position(Put(book, c), address);
            if c.address != address then
              (i < |book| <==> i' < |Put(book, c)|) && (i < |book| ==> Put(book, c)[i'] == book[i])
            else
              && i' < |Put(book, c)|
              && Put(book, c)[i'] == if i == |book| || (!c.waiting && book[i].waiting) then c else book[i]
  {
    hide Position;
    var i, j := Position(book, address), Position(book, c.address);
    var after := Put(book, c);
    if c.address != "" && j == |book| {
      PositionUnique(after, if i < |book| || c.address == address then i else i + 1, address);
    } else {
      PositionUnique(after, i, address);
    }
  }

  class Addresses {
    var PubAddresses: seq<Contact>

    constructor ()
      ensures PubAddresses == []
    {
      PubAddresses := [];
    }

    method AddAddr(c: Contact)
      modifies this
      ensures PubAddresses == Put(old(PubAddresses), c)
    {
      if c.address == "" {
        return;
      }
      var find, i := false, 0;
      while i < |PubAddresses| && !find
        invariant i <= |PubAddresses|
        invariant !find ==> PubAddresses == old(PubAddresses) && i <= Position(PubAddresses, c.address)
        invariant find ==> PubAddresses == Put(old(PubAddresses), c)
      {
        if PubAddresses[i].address == c.address {
          PositionUnique(PubAddresses, i, c.address);
          if !c.waiting && PubAddresses[i].waiting {
            PubAddresses := PubAddresses[i := c];
          }
          find := true;
        }
        i := i + 1;
      }
      if !find {
        PubAddresses := PubAddresses + [c];
      }
    }
  }
}
