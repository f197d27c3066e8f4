/**
 * The in-memory message store: a process-wide, append-only list of message
 * records with two operations, `list` and `create`. Nothing else touches
 * the list, so records are never updated or removed.
 */
module Store {
  import opened Wrappers
  import Decimal

  /** The author recorded when the caller supplies none (or an empty one). */
  const ANONYMOUS: string := "anonymous"

  /**
   * A stored message. `id` is kept as a number; the record exposes it as
   * the decimal text `IdText` renders. `createdAt` is the clock reading
   * taken when the record was made, kept opaque.
   */
  datatype Message = Message(id: nat, content: string, author: string, createdAt: string)

  /** The identifier as the record carries it: the decimal numeral of `id`, which parses back to `id`. */
  function IdText(m: Message): (s: string)
    ensures |s| >= 1 && Decimal.IsNumeral(s) && Decimal.Parse(s) == m.id
  {
    Decimal.ParseRender(m.id);
    Decimal.Render(m.id)
  }

  /** The arguments of one `create` call, with the clock reading it takes. */
  datatype Draft = Draft(content: string, author: Option<string>, createdAt: string)

  /**
   * `author || 'anonymous'`: a supplied, non-empty author is kept; an
   * absent author and the empty string (both falsy) become "anonymous".
   */
  function ResolveAuthor(author: Option<string>): (r: string)
    ensures r != ""
    ensures author.Some? && author.value != "" ==> r == author.value
    ensures author.None? || author.value == "" ==> r == ANONYMOUS
    ensures r != ANONYMOUS ==> author == Some(r)
  {
    match author
    case Some(a) => if a != "" then a else ANONYMOUS
    case None => ANONYMOUS
  }

  /** The record `create` builds when the store already holds `count` records. */
  function NewRecord(count: nat, d: Draft): (m: Message)
    ensures m.id == count + 1
    ensures m.content == d.content && m.createdAt == d.createdAt
    ensures m.author != "" && (d.author.Some? && d.author.value != "" ==> m.author == d.author.value)
  {
    Message(count + 1, d.content, ResolveAuthor(d.author), d.createdAt)
  }

  /** The store after one `create` call on a store holding `s`. */
  function Append(s: seq<Message>, d: Draft): (r: seq<Message>)
    ensures |r| == |s| + 1 && s <= r
    ensures r[|s|] == NewRecord(|s|, d)
    ensures IdsSequential(s) ==> IdsSequential(r)
  {
    s + [NewRecord(|s|, d)]
  }

  /** The store after the given `create` calls, in order, on an empty store. */
  function Replay(history: seq<Draft>): (s: seq<Message>)
    ensures |s| == |history|
    decreases |history|
  {
    if history == [] then [] else Append(Replay(history[..|history| - 1]), history[|history| - 1])
  }

  /** The k-th record (from 0) has id k + 1. */
  ghost predicate IdsSequential(s: seq<Message>) {
    forall k :: 0 <= k < |s| ==> s[k].id == k + 1
  }

  /** Replaying one more call appends exactly one record and keeps the rest. */
  lemma ReplaySnoc(history: seq<Draft>, d: Draft)
    ensures Replay(history + [d]) == Append(Replay(history), d)
  {
    assert (history + [d])[..|history|] == history;
  }

  /**
   * The k-th stored record is the one the k-th `create` call built: id
   * k + 1, the content verbatim, the resolved author and that call's clock
   * reading. Later calls never change it.
   */
  lemma {:induction false} ReplayRecord(history: seq<Draft>, k: nat)
    requires k < |history|
    ensures Replay(history)[k] == NewRecord(k, history[k])
    decreases |history|
  {
    var n := |history| - 1;
    var front := history[..n];
    assert history == front + [history[n]];
    ReplaySnoc(front, history[n]);
    if k < n {
      ReplayRecord(front, k);
    }
  }

  /** Ids run 1, 2, 3, ... in insertion order, so they strictly increase and never repeat. */
  lemma {:induction false} ReplayIds(history: seq<Draft>)
    ensures IdsSequential(Replay(history))
    ensures forall i, j :: 0 <= i < j < |history| ==> Replay(history)[i].id < Replay(history)[j].id
  {
    forall k | 0 <= k < |history|
      ensures Replay(history)[k].id == k + 1
    {
      ReplayRecord(history, k);
    }
  }

  /** Earlier stores are prefixes of later ones: more `create` calls only add records at the end. */
  lemma {:induction false} ReplayPrefix(history: seq<Draft>, more: seq<Draft>)
    ensures Replay(history) <= Replay(history + more)
    decreases |more|
  {
    if more == [] {
      assert history + more == history;
    } else {
      var m := |more| - 1;
      ReplayPrefix(history, more[..m]);
      assert history + more == (history + more[..m]) + [more[m]];
      ReplaySnoc(history + more[..m], more[m]);
    }
  }

  /** With sequential ids the decimal id texts are pairwise distinct too. */
  lemma IdTextsDistinct(s: seq<Message>)
    requires IdsSequential(s)
    ensures forall i, j :: 0 <= i < j < |s| ==> IdText(s[i]) != IdText(s[j])
  {
    forall i, j | 0 <= i < j < |s|
      ensures IdText(s[i]) != IdText(s[j])
    {
      Decimal.RenderInjective(s[i].id, s[j].id);
    }
  }

  /**
   * The module-level `messages` array with its two exported operations.
   * `history` records every `create` call so far; the stored records are
   * always what replaying that history gives.
   */
  class MessageStore {
    var messages: seq<Message>
    ghost var history: seq<Draft>

    ghost predicate Valid()
      reads this
    {
      messages == Replay(history)
    }

    /** The store starts empty. */
    constructor ()
      ensures Valid() && messages == [] && history == []
    {
      messages := [];
      history := [];
    }

    /** All records in insertion order, the k-th carrying id k + 1; the store is left unchanged. */
    method List() returns (all: seq<Message>)
      requires Valid()
      ensures all == messages
      ensures IdsSequential(all)
    {
      all := messages;
      ReplayIds(history);
    }

    /**
     * Builds the next record, appends it, and returns it. The id is one
     * more than the number of records already stored; content is kept
     * verbatim; no input is rejected.
     */
    method Create(content: string, author: Option<string>, createdAt: string) returns (m: Message)
      requires Valid()
      modifies this
      ensures Valid()
      ensures history == old(history) + [Draft(content, author, createdAt)]
      ensures messages == old(messages) + [m]
      ensures m.id == |old(messages)| + 1
      ensures m.content == content && m.author == ResolveAuthor(author) && m.createdAt == createdAt
    {
      var d := Draft(content, author, createdAt);
      m := NewRecord(|messages|, d);
      ReplaySnoc(history, d);
      messages := messages + [m];
      history := history + [d];
    }
  }
}
