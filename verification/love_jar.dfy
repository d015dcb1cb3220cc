/** The Love Jar: a list of date ideas the couple keeps, newest first. Items
    are added from a text field, removed by id, or generated by the text
    service; the current time in milliseconds serves as the new item's id. */
module LoveJar {
  import opened Text
  import opened Generated

  datatype Item = Item(id: int, text: string)

  /** The jar's list and the text field's contents. */
  datatype Jar = Jar(items: seq<Item>, draft: string)

  /** The two ideas the jar starts with. */
  const InitialItems: seq<Item> := [
    Item(1, "Cozinhar uma nova receita juntos"),
    Item(2, "Fazer um piquenique ao p\U{00F4}r do sol")]

  const InitialJar: Jar := Jar(InitialItems, "")

  /** The two starting ideas have ids 1 and 2, which no clock reading since
      1970 can produce: adding an idea at such a time and removing it again
      gives back exactly the starting list. */
  lemma InitialIdsNeverClash(draft: string, now: int)
    requires !AllWhitespace(draft) && now > 2
    ensures |InitialJar.items| == 2 && InitialJar.draft == []
    ensures RemoveItem(AddItem(InitialJar.(draft := draft), now).items, now) == InitialItems
  {
    RemoveUndoesAdd(InitialJar.(draft := draft), now);
  }

  /** `handleAddItem`: when the trimmed draft is non-empty it is prepended
      under the id `now` and the field is cleared; otherwise nothing changes. */
  function AddItem(jar: Jar, now: int): (r: Jar)
    ensures Trim(jar.draft) == [] ==> r == jar
    ensures Trim(jar.draft) != [] ==>
      && r.draft == []
      && |r.items| == |jar.items| + 1
      && r.items[0] == Item(now, Trim(jar.draft))
      && r.items[1..] == jar.items
  {
    var text := Trim(jar.draft);
    if text != [] then Jar([Item(now, text)] + jar.items, []) else jar
  }

  /** A draft of only whitespace, the empty draft included, adds nothing. */
  lemma BlankDraftAddsNothing(jar: Jar, now: int)
    requires AllWhitespace(jar.draft)
    ensures AddItem(jar, now) == jar
  {
  }

  /** `handleRemoveItem`: the items whose id differs from `id`, in order. */
  function RemoveItem(items: seq<Item>, id: int): (r: seq<Item>)
    ensures |r| <= |items|
    ensures forall x :: x in r <==> x in items && x.id != id
    ensures |r| == |items| - CountId(items, id)
  {
    if items == [] then []
    else if items[0].id != id then [items[0]] + RemoveItem(items[1..], id)
    else RemoveItem(items[1..], id)
  }

  /** How many items carry `id`. Ids are times in milliseconds and can repeat. */
  function CountId(items: seq<Item>, id: int): nat {
    if items == [] then 0
    else (if items[0].id == id then 1 else 0) + CountId(items[1..], id)
  }

  /** Removing distributes over concatenation: it keeps the relative order of
      what survives. */
  lemma {:induction false} RemoveAppend(a: seq<Item>, b: seq<Item>, id: int)
    ensures RemoveItem(a + b, id) == RemoveItem(a, id) + RemoveItem(b, id)
  {
    if a != [] {
      var ab := a + b;
      assert ab[0] == a[0] && ab[1..] == a[1..] + b;
      RemoveAppend(a[1..], b, id);
      if a[0].id != id {
        assert RemoveItem(ab, id) == [a[0]] + RemoveItem(a[1..] + b, id);
        assert RemoveItem(a, id) == [a[0]] + RemoveItem(a[1..], id);
      } else {
        assert RemoveItem(ab, id) == RemoveItem(a[1..] + b, id);
        assert RemoveItem(a, id) == RemoveItem(a[1..], id);
      }
    } else {
      assert a + b == b;
    }
  }

  /** Removing an id nobody has leaves the list as it was. */
  lemma {:induction false} RemoveAbsent(items: seq<Item>, id: int)
    requires forall i :: 0 <= i < |items| ==> items[i].id != id
    ensures RemoveItem(items, id) == items
  {
    if items != [] {
      RemoveAbsent(items[1..], id);
    }
  }

  /** Removing twice is removing once. */
  lemma RemoveIdempotent(items: seq<Item>, id: int)
    ensures RemoveItem(RemoveItem(items, id), id) == RemoveItem(items, id)
  {
    var r := RemoveItem(items, id);
    forall i | 0 <= i < |r| ensures r[i].id != id {
      assert r[i] in r;
    }
    RemoveAbsent(r, id);
  }

  /** Removing the id of a freshly added item undoes the addition, unless an
      older item had the same id, in which case that one goes too. */
  lemma RemoveUndoesAdd(jar: Jar, now: int)
    requires !AllWhitespace(jar.draft)
    ensures RemoveItem(AddItem(jar, now).items, now) == RemoveItem(jar.items, now)
    ensures (forall i :: 0 <= i < |jar.items| ==> jar.items[i].id != now) ==>
      RemoveItem(AddItem(jar, now).items, now) == jar.items
  {
    var r := AddItem(jar, now);
    assert r.items == [Item(now, Trim(jar.draft))] + jar.items;
    RemoveAppend([Item(now, Trim(jar.draft))], jar.items, now);
    if forall i :: 0 <= i < |jar.items| ==> jar.items[i].id != now {
      RemoveAbsent(jar.items, now);
    }
  }

  /** Two ideas added in the same millisecond share an id, and removing one
      removes both. */
  lemma SameMillisecondRemovesBoth(jar: Jar, now: int, second: string)
    requires !AllWhitespace(jar.draft) && !AllWhitespace(second)
    ensures var once := AddItem(jar, now);
            var twice := AddItem(once.(draft := second), now);
            RemoveItem(twice.items, now) == RemoveItem(jar.items, now)
  {
    var once := AddItem(jar, now);
    RemoveUndoesAdd(jar, now);
    RemoveUndoesAdd(once.(draft := second), now);
  }

  /** `handleGenerateIdea`: the service's reply is prepended under the id
      `now` when it passes the filter; otherwise the list is unchanged.
      `items` is the list as it was when the request was sent, which the
      handler's closure captured before awaiting the reply. */
  function GenerateIdea(items: seq<Item>, idea: string, now: int): (r: seq<Item>)
    ensures Usable(idea) ==> r == [Item(now, idea)] + items
    ensures !Usable(idea) ==> r == items
  {
    if Usable(idea) then [Item(now, idea)] + items else items
  }

  /** The list after a run of generated replies, oldest first, each arriving
      at its own time. */
  function GenerateAll(items: seq<Item>, replies: seq<(string, int)>): seq<Item>
    decreases |replies|
  {
    if replies == [] then items
    else
      var last := replies[|replies| - 1];
      GenerateIdea(GenerateAll(items, replies[..|replies| - 1]), last.0, last.1)
  }

  /** `r` is `items` with some of `replies` in front: each one passed the
      filter and carries the time it arrived as its id. */
  ghost predicate GrownBy(r: seq<Item>, items: seq<Item>, replies: seq<(string, int)>) {
    && |items| <= |r| <= |items| + |replies|
    && r[|r| - |items|..] == items
    && forall i :: 0 <= i < |r| - |items| ==> Usable(r[i].text) && (r[i].text, r[i].id) in replies
  }

  /** One more reply keeps the list grown by the replies so far. */
  lemma GenerateStep(before: seq<Item>, items: seq<Item>, init: seq<(string, int)>, last: (string, int))
    requires GrownBy(before, items, init)
    ensures GrownBy(GenerateIdea(before, last.0, last.1), items, init + [last])
  {
    var replies := init + [last];
    var r := GenerateIdea(before, last.0, last.1);
    if Usable(last.0) {
      assert r[1..] == before;
      assert r[|r| - |items|..] == before[|before| - |items|..];
      forall i | 0 <= i < |r| - |items|
        ensures Usable(r[i].text) && (r[i].text, r[i].id) in replies
      {
        if i == 0 {
          assert replies[|init|] == last;
        } else {
          assert r[i] == before[i - 1];
          assert (r[i].text, r[i].id) in init;
        }
      }
    } else {
      forall i | 0 <= i < |r| - |items|
        ensures Usable(r[i].text) && (r[i].text, r[i].id) in replies
      {
        assert (r[i].text, r[i].id) in init;
      }
    }
  }

  /** The run of replies grows the list, by induction on the run. */
  lemma {:induction false} GenerateAllGrows(items: seq<Item>, replies: seq<(string, int)>)
    ensures GrownBy(GenerateAll(items, replies), items, replies)
    decreases |replies|
  {
    if replies == [] {
      assert GenerateAll(items, replies) == items;
      assert items[|items| - |items|..] == items;
    } else {
      var init := replies[..|replies| - 1];
      var last := replies[|replies| - 1];
      GenerateAllGrows(items, init);
      var before := GenerateAll(items, init);
      assert GenerateAll(items, replies) == GenerateIdea(before, last.0, last.1);
      GenerateStep(before, items, init, last);
      assert init + [last] == replies;
    }
  }

  /** Whatever the service replies, generating only ever prepends: the list
      ends with the items it started with, and every item in front of them is
      a reply that passed the filter, under the time it arrived. This composes
      replies one after another on the list each one returned; see
      `StaleListUndoesEdits` for edits made while a request is pending. */
  lemma GeneratedItemsAreUsable(items: seq<Item>, replies: seq<(string, int)>)
    ensures var r := GenerateAll(items, replies);
            && |items| <= |r| <= |items| + |replies|
            && r[|r| - |items|..] == items
            && forall i :: 0 <= i < |r| - |items| ==>
                 Usable(r[i].text) && (r[i].text, r[i].id) in replies
  {
    GenerateAllGrows(items, replies);
  }

  /** The reply is prepended to the list as it was when the request was sent,
      and the result replaces whatever the list has become meanwhile: an idea
      added while the request is pending disappears, and an item removed
      meanwhile comes back. */
  lemma StaleListUndoesEdits(jar: Jar, idea: string, added: int, arrived: int)
    requires Usable(idea) && !AllWhitespace(jar.draft)
    requires forall i :: 0 <= i < |jar.items| ==> jar.items[i].id != added
    requires arrived != added
    ensures var draftItem := Item(added, Trim(jar.draft));
            && draftItem in AddItem(jar, added).items
            && draftItem !in GenerateIdea(jar.items, idea, arrived)
    ensures forall x :: x in jar.items ==>
      x !in RemoveItem(jar.items, x.id) && x in GenerateIdea(jar.items, idea, arrived)
  {
    var draftItem := Item(added, Trim(jar.draft));
    assert AddItem(jar, added).items[0] == draftItem;
  }

  /** The proxy-backed service's failure reply never reaches the jar. */
  lemma FailedIdeaIsDropped(items: seq<Item>, now: int)
    ensures GenerateIdea(items, ProxyIdeaFallback, now) == items
  {
    ProxyFallbacksAreFiltered();
  }
}
