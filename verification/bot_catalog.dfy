/** The catalog step of bot_videos.py: video posts of 10 minutes to 2 hours from chats with
    a public handle, in the order the client iterates them (newest first). */
module BotCatalog {
  import opened Wrappers
  import opened Text
  import opened Telegram
  import Seqs

  /** One catalog row: link and caption (this script fetches no preview images). */
  datatype Entry = Entry(url: string, caption: string)

  const MinDuration: real := 600.0
  const MaxDuration: real := 7200.0

  /** A video whose duration attribute exists and lies in `[MinDuration, MaxDuration]`. */
  predicate Qualifies(m: Message) {
    && m.video.Some?
    && m.video.value.duration.Some?
    && MinDuration <= m.video.value.duration.value <= MaxDuration
  }

  /** A qualifying post is kept only when its chat has a non-empty handle; the others are
      skipped without a row and without an error. */
  predicate Kept(m: Message) {
    Qualifies(m) && HasHandle(m.chat)
  }

  /** The row for a kept post. */
  function ToEntry(m: Message): Entry {
    Entry(MessageLink(m.chat.username.GetOr(""), m.id), Caption(m))
  }

  function Entries(ms: seq<Message>): seq<Entry> {
    Seqs.Map(ToEntry, ms)
  }

  /** The catalog of a history as the client iterates it. */
  function Catalog(history: seq<Message>): seq<Entry> {
    Entries(Seqs.Filter(Kept, history))
  }

  lemma EntriesSnoc(ms: seq<Message>, m: Message)
    ensures Entries(ms + [m]) == Entries(ms) + [ToEntry(m)]
  {
  }

  /** The script's single pass over the iterated history, with its `continue` for chats
      without a handle. */
  method CollectCatalog(history: seq<Message>) returns (entries: seq<Entry>)
    ensures entries == Catalog(history)
  {
    entries := [];
    var k := 0;
    while k < |history|
      invariant 0 <= k <= |history|
      invariant entries == Entries(Seqs.Filter(Kept, history[..k]))
    {
      var m := history[k];
      Seqs.FilterSnoc(Kept, history[..k], m);
      assert history[..k + 1] == history[..k] + [m];
      k := k + 1;
      if m.video.Some? && m.video.value.duration.Some? {
        var duration := m.video.value.duration.value;
        if duration >= 600.0 && duration <= 7200.0 {
          if m.chat.username.Some? && m.chat.username.value != "" {
            var url := "https://t.me/" + m.chat.username.value + "/" + IntToString(m.id);
            EntriesSnoc(Seqs.Filter(Kept, history[..k - 1]), m);
            entries := entries + [Entry(url, Caption(m))];
          } else {
            continue;
          }
        }
      }
    }
    assert history[..k] == history;
  }

  /** A row is in the catalog exactly when some post of the history has a video of
      600 to 7200 seconds, both bounds included, in a chat with a handle, and produces it. */
  lemma CatalogMembership(history: seq<Message>, e: Entry)
    ensures e in Catalog(history) <==>
      exists m :: m in history && Qualifies(m) && HasHandle(m.chat) && e == ToEntry(m)
  {
    var src := Seqs.Filter(Kept, history);
    var r := Catalog(history);
    if e in r {
      var k :| 0 <= k < |r| && r[k] == e;
      Seqs.FilterMembership(Kept, history, src[k]);
    }
    if exists m :: m in history && Qualifies(m) && HasHandle(m.chat) && e == ToEntry(m) {
      var m :| m in history && Qualifies(m) && HasHandle(m.chat) && e == ToEntry(m);
      Seqs.FilterMembership(Kept, history, m);
      var k :| 0 <= k < |src| && src[k] == m;
      assert r[k] == e;
    }
  }

  /** Every row comes from a post in the duration window, links to
      `https://t.me/<handle>/<id>` of that post, and carries a non-empty caption. */
  lemma CatalogRows(history: seq<Message>)
    ensures |Catalog(history)| <= |history|
    ensures forall k :: 0 <= k < |Catalog(history)| ==>
      var m := Seqs.Filter(Kept, history)[k];
      && m in history
      && m.video.Some? && m.video.value.duration.Some?
      && 600.0 <= m.video.value.duration.value <= 7200.0
      && m.chat.username.Some? && m.chat.username.value != ""
      && Catalog(history)[k].url == "https://t.me/" + m.chat.username.value + "/" + IntToString(m.id)
      && Catalog(history)[k].caption != ""
  {
    FilterShorter(history);
    Seqs.FilterAll(Kept, history);
    forall k | 0 <= k < |Catalog(history)|
      ensures Seqs.Filter(Kept, history)[k] in history
      ensures Catalog(history)[k] == ToEntry(Seqs.Filter(Kept, history)[k])
    {
      Seqs.FilterMembership(Kept, history, Seqs.Filter(Kept, history)[k]);
    }
  }

  lemma {:induction false} FilterShorter(history: seq<Message>)
    ensures |Seqs.Filter(Kept, history)| <= |history|
  {
    if |history| > 0 {
      FilterShorter(history[1..]);
    }
  }

  /** A history from a chat without a handle gives no rows at all. */
  lemma PrivateChatGivesNothing(history: seq<Message>)
    requires forall i :: 0 <= i < |history| ==> !HasHandle(history[i].chat)
    ensures Catalog(history) == []
  {
    var src := Seqs.Filter(Kept, history);
    if |src| > 0 {
      Seqs.FilterMembership(Kept, history, src[0]);
      assert false;
    }
  }

  /** No reversal: the rows keep the iteration order, so a newest-first history gives rows
      whose posts go newest first. */
  lemma CatalogNewestFirst(history: seq<Message>)
    requires NewestFirst(history)
    ensures NewestFirst(Seqs.Filter(Kept, history))
  {
    Seqs.FilterDescending(Kept, MessageId, history);
  }

  /** A worked history: posts 12, 11 and 10 of the channel `demo`, iterated newest first,
      with videos of 1200, 50 and 700 seconds. Post 11 is too short; the other two give rows
      in iteration order. */
  lemma DemoHistory(chat: Entity, a: Message, b: Message, c: Message)
    requires chat.username == Some("demo")
    requires a.chat == chat && b.chat == chat && c.chat == chat
    requires a.id == 12 && b.id == 11 && c.id == 10
    requires a.video.Some? && a.video.value.duration == Some(1200.0)
    requires b.video.Some? && b.video.value.duration == Some(50.0)
    requires c.video.Some? && c.video.value.duration == Some(700.0)
    ensures Catalog([a, b, c])
         == [Entry("https://t.me/demo/12", Caption(a)), Entry("https://t.me/demo/10", Caption(c))]
  {
    assert HasHandle(chat) by {
      assert "demo"[0] == 'd';
    }
    assert Kept(a) && !Kept(b) && Kept(c);
    assert Seqs.Filter(Kept, [a, b, c]) == [a, c] by {
      assert [a, b, c][1..] == [b, c] && [b, c][1..] == [c] && [c][1..] == [];
      assert Seqs.Filter(Kept, [c]) == [c] + Seqs.Filter(Kept, []) == [c];
      assert Seqs.Filter(Kept, [b, c]) == [c];
      assert Seqs.Filter(Kept, [a, b, c]) == [a] + [c];
    }
    assert IntToString(12) == "12" && IntToString(10) == "10";
    assert ToEntry(a).url == "https://t.me/demo/12";
    assert ToEntry(c).url == "https://t.me/demo/10";
  }
}
