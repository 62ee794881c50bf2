/**
 * Email as the mail pipeline and the handlers see it: header fields in
 * order, the parts `walk` visits, and the mark verification leaves.  MIME
 * encoding, PGP and transport are not modelled; a part's payload is its
 * decoded text.
 */
module Mail {

  import opened Outcome
  import opened Text
  import opened PersonModel

  /** One header field, its name as written. */
  datatype Header = Header(name: string, value: string)

  /** A part `walk` visits: its content type, an attachment's filename, and its decoded payload. */
  datatype Part = Part(contentType: string, filename: Option<string>, payload: string)

  /** An email: its header fields in order, its parts in `walk` order, and whether it was authenticated. */
  datatype Message = Message(headers: seq<Header>, parts: seq<Part>, authenticated: bool)

  /** Header names compare without regard to case. */
  predicate SameName(a: string, b: string)
  {
    Lower(a) == Lower(b)
  }

  /** `message[name]`: the value of the first field of that name, or `None`. */
  function Get(headers: seq<Header>, name: string): (r: Option<string>)
    ensures r.None? <==> forall i :: 0 <= i < |headers| ==> !SameName(headers[i].name, name)
  {
    if headers == [] then None
    else if SameName(headers[0].name, name) then Some(headers[0].value)
    else
      var r := Get(headers[1..], name);
      assert forall i :: 1 <= i < |headers| ==> headers[i] == headers[1..][i - 1];
      r
  }

  /** The value found is that of the earliest field with the name. */
  lemma {:induction false} GetFirst(headers: seq<Header>, name: string, i: nat)
    requires i < |headers| && SameName(headers[i].name, name)
    requires forall j :: 0 <= j < i ==> !SameName(headers[j].name, name)
    ensures Get(headers, name) == Some(headers[i].value)
  {
    if i > 0 {
      GetFirst(headers[1..], name, i - 1);
    }
  }

  /** A field added at the end is found only when no earlier field has its name. */
  lemma {:induction false} GetAppended(headers: seq<Header>, h: Header, name: string)
    ensures Get(headers + [h], name) ==
            if Get(headers, name).Some? then Get(headers, name)
            else if SameName(h.name, name) then Some(h.value) else None
  {
    if headers != [] {
      assert (headers + [h])[1..] == headers[1..] + [h];
      GetAppended(headers[1..], h, name);
    }
  }

  /**
   * An outgoing email as the handlers compose it.  `subject` is `None` only
   * for a message whose Subject field was deleted.
   */
  datatype Reply = Reply(author: Person, targets: seq<Person>, subject: Option<string>, text: string,
                         original: Option<Message>)

  /**
   * The `respond` callback: every call, with its argument, in order.  The
   * mail pipeline can call it with `None`.
   */
  class Outbox {
    var calls: seq<Option<Reply>>

    constructor ()
      ensures calls == []
    {
      calls := [];
    }

    method Send(r: Option<Reply>)
      modifies this
      ensures calls == old(calls) + [r]
    {
      calls := calls + [r];
    }
  }

  /** A stored message: its key, the message and its flags (`S` for seen). */
  datatype Stored = Stored(key: nat, message: Message, flags: string)

  /** A mailbox: its messages under their keys, in order. */
  class Mailbox {
    var items: seq<Stored>

    constructor (items: seq<Stored>)
      ensures this.items == items
    {
      this.items := items;
    }

    /** The messages alone, in order. */
    function Messages(): (r: seq<Message>)
      reads this
      ensures |r| == |items|
      ensures forall i :: 0 <= i < |items| ==> r[i] == items[i].message
    {
      seq(|items|, i reads this requires 0 <= i < |items| => items[i].message)
    }

    /** `add`: the message goes at the end, with the given flags, under a key no other item has. */
    method Add(m: Message, flags: string)
      modifies this
      ensures |items| == |old(items)| + 1
      ensures items[..|old(items)|] == old(items)
      ensures items[|old(items)|].message == m && items[|old(items)|].flags == flags
      ensures forall i :: 0 <= i < |old(items)| ==> old(items)[i].key != items[|old(items)|].key
    {
      items := items + [Stored(FreshKey(items), m, flags)];
    }

    /** `del mailbox[key]`: the item under the key goes, the others keep their order. */
    method Remove(key: nat)
      modifies this
      ensures items == Without(old(items), key)
    {
      var kept: seq<Stored> := [];
      for i := 0 to |items|
        invariant kept == Without(items[..i], key)
      {
        assert items[..i + 1][..i] == items[..i];
        if items[i].key != key {
          kept := kept + [items[i]];
        }
      }
      assert items[..|items|] == items;
      items := kept;
    }
  }

  /** A key above every key in use. */
  function FreshKey(items: seq<Stored>): (k: nat)
    ensures forall i :: 0 <= i < |items| ==> items[i].key < k
  {
    if items == [] then 0
    else
      var last := items[|items| - 1].key + 1;
      var below := FreshKey(items[..|items| - 1]);
      if last > below then last else below
  }

  /** The stored messages other than those under `key`, in order. */
  function Without(items: seq<Stored>, key: nat): seq<Stored>
  {
    if items == [] then []
    else
      Without(items[..|items| - 1], key) +
      (if items[|items| - 1].key == key then [] else [items[|items| - 1]])
  }

  /** Removal keeps exactly the items under other keys. */
  lemma {:induction false} WithoutMembers(items: seq<Stored>, key: nat, x: Stored)
    ensures x in Without(items, key) <==> x in items && x.key != key
  {
    if items != [] {
      var init := items[..|items| - 1];
      WithoutMembers(init, key, x);
      assert items == init + [items[|items| - 1]];
    }
  }
}
