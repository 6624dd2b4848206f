/** The catalog step of the user-account script in main.py: every video post of the
    history, oldest first, with its deep link, caption and best-effort thumbnail. */
module AccountCatalog {
  import opened Wrappers
  import opened Text
  import opened Telegram
  import Seqs

  /** One catalog row: link, caption, and the base64 preview image or "" for none. */
  datatype Entry = Entry(url: string, caption: string, thumbnail: string)

  /** What goes between "https://t.me/" and the message id: the handle of a public chat,
      otherwise "c/" and the chat id with the supergroup marker removed. */
  function LinkPrefix(chat: Entity): string {
    if HasHandle(chat) then chat.username.value else "c/" + StripMarker(IntToString(chat.id))
  }

  /** The only filter of this script: the post carries a video. */
  predicate HasVideo(m: Message) {
    m.video.Some?
  }

  /** The preview of a video: the fetch of its last (largest) size when there is one and
      the fetch succeeds, "" otherwise. `fetch` stands for the download and base64 encoding;
      `None` is a download that raised. */
  function Thumbnail(v: Video, fetch: Thumb -> Option<string>): (t: string)
    ensures |v.thumbs| == 0 ==> t == ""
    ensures |v.thumbs| > 0 && fetch(v.thumbs[|v.thumbs| - 1]).None? ==> t == ""
    ensures |v.thumbs| > 0 && fetch(v.thumbs[|v.thumbs| - 1]).Some? ==> t == fetch(v.thumbs[|v.thumbs| - 1]).value
    ensures t != "" ==> |v.thumbs| > 0 && fetch(v.thumbs[|v.thumbs| - 1]) == Some(t)
  {
    if |v.thumbs| == 0 then "" else fetch(v.thumbs[|v.thumbs| - 1]).GetOr("")
  }

  /** The row for one video post. */
  function ToEntry(prefix: string, fetch: Thumb -> Option<string>, m: Message): Entry {
    var thumbnail := match m.video case Some(v) => Thumbnail(v, fetch) case None => "";
    Entry(MessageLink(prefix, m.id), Caption(m), thumbnail)
  }

  function Entries(prefix: string, fetch: Thumb -> Option<string>, ms: seq<Message>): seq<Entry> {
    Seqs.Map((m: Message) => ToEntry(prefix, fetch, m), ms)
  }

  /** The posts that become rows: the video posts of the reversed history. */
  function Sources(history: seq<Message>): seq<Message> {
    Seqs.Filter(HasVideo, Seqs.Reverse(history))
  }

  /** The catalog of a history given newest first, as the client iterates it. */
  function Catalog(chat: Entity, history: seq<Message>, fetch: Thumb -> Option<string>): seq<Entry> {
    Entries(LinkPrefix(chat), fetch, Sources(history))
  }

  /** `all_messages.reverse()`, as a loop that takes the elements from the back. */
  method ReverseList(all: seq<Message>) returns (reversed: seq<Message>)
    ensures reversed == Seqs.Reverse(all)
  {
    reversed := [];
    var i := |all|;
    while i > 0
      invariant 0 <= i <= |all|
      invariant reversed == Seqs.Reverse(all[i..])
    {
      i := i - 1;
      assert all[i..][1..] == all[i + 1..];
      reversed := reversed + [all[i]];
    }
    assert all[0..] == all;
  }

  lemma EntriesSnoc(prefix: string, fetch: Thumb -> Option<string>, ms: seq<Message>, m: Message)
    ensures Entries(prefix, fetch, ms + [m]) == Entries(prefix, fetch, ms) + [ToEntry(prefix, fetch, m)]
  {
  }

  /** The script's loop over the reversed history: one appended row per video post. */
  method CollectCatalog(chat: Entity, history: seq<Message>, fetch: Thumb -> Option<string>)
    returns (entries: seq<Entry>)
    ensures entries == Catalog(chat, history, fetch)
  {
    var prefix := LinkPrefix(chat);
    var reversed := ReverseList(history);
    entries := [];
    var k := 0;
    while k < |reversed|
      invariant 0 <= k <= |reversed|
      invariant entries == Entries(prefix, fetch, Seqs.Filter(HasVideo, reversed[..k]))
    {
      var m := reversed[k];
      Seqs.FilterSnoc(HasVideo, reversed[..k], m);
      assert reversed[..k + 1] == reversed[..k] + [m];
      if m.video.Some? {
        var video := m.video.value;
        var thumbnail := "";
        if |video.thumbs| > 0 {
          var best := video.thumbs[|video.thumbs| - 1];
          match fetch(best) {
            case Some(encoded) => thumbnail := encoded;
            case None =>
          }
        }
        assert thumbnail == Thumbnail(video, fetch);
        EntriesSnoc(prefix, fetch, Seqs.Filter(HasVideo, reversed[..k]), m);
        entries := entries + [Entry(MessageLink(prefix, m.id), Caption(m), thumbnail)];
      } else {
        assert Seqs.Filter(HasVideo, reversed[..k + 1]) == Seqs.Filter(HasVideo, reversed[..k]);
      }
      k := k + 1;
    }
    assert reversed[..k] == reversed;
  }

  /** Entries of a reversed list are the reversed entries. */
  lemma EntriesReverse(prefix: string, fetch: Thumb -> Option<string>, ms: seq<Message>)
    ensures Entries(prefix, fetch, Seqs.Reverse(ms)) == Seqs.Reverse(Entries(prefix, fetch, ms))
  {
    Seqs.MapReverse((m: Message) => ToEntry(prefix, fetch, m), ms);
  }

  /** The rows are the reverse of what a pass over the history in iteration order would
      produce from its video posts. */
  lemma CatalogIsReversed(chat: Entity, history: seq<Message>, fetch: Thumb -> Option<string>)
    ensures Catalog(chat, history, fetch)
         == Seqs.Reverse(Entries(LinkPrefix(chat), fetch, Seqs.Filter(HasVideo, history)))
    ensures |Catalog(chat, history, fetch)| == |Seqs.Filter(HasVideo, history)|
  {
    Seqs.FilterReverse(HasVideo, history);
    EntriesReverse(LinkPrefix(chat), fetch, Seqs.Filter(HasVideo, history));
  }

  /** A history iterated newest first yields rows whose posts go oldest first. */
  lemma CatalogOldestFirst(history: seq<Message>)
    requires NewestFirst(history)
    ensures OldestFirst(Sources(history))
  {
    Seqs.ReverseDescending(MessageId, history);
    Seqs.FilterAscending(HasVideo, MessageId, Seqs.Reverse(history));
  }

  /** A post is a source of the catalog exactly when it is in the history and has a video;
      there is no duration condition. */
  lemma SourcesAreVideoPosts(history: seq<Message>, m: Message)
    ensures m in Sources(history) <==> m in history && HasVideo(m)
  {
    var r := Seqs.Reverse(history);
    Seqs.FilterMembership(HasVideo, r, m);
    if m in history {
      var i :| 0 <= i < |history| && history[i] == m;
      assert r[|history| - 1 - i] == m;
    }
  }

  /** A row is in the catalog exactly when some video post of the history produces it. */
  lemma CatalogMembership(chat: Entity, history: seq<Message>, fetch: Thumb -> Option<string>, e: Entry)
    ensures e in Catalog(chat, history, fetch) <==>
      exists m :: m in history && HasVideo(m) && e == ToEntry(LinkPrefix(chat), fetch, m)
  {
    var src := Sources(history);
    var r := Catalog(chat, history, fetch);
    if e in r {
      var k :| 0 <= k < |r| && r[k] == e;
      SourcesAreVideoPosts(history, src[k]);
    }
    if exists m :: m in history && HasVideo(m) && e == ToEntry(LinkPrefix(chat), fetch, m) {
      var m :| m in history && HasVideo(m) && e == ToEntry(LinkPrefix(chat), fetch, m);
      SourcesAreVideoPosts(history, m);
      var k :| 0 <= k < |src| && src[k] == m;
      assert r[k] == e;
    }
  }

  /** A row's thumbnail is the preview of its post (the fetch of the largest size when that
      succeeds, "" otherwise), and a failed fetch never removes the row: the links and
      captions do not depend on `fetch`. */
  lemma CatalogThumbnails(chat: Entity, history: seq<Message>, fetch: Thumb -> Option<string>,
                          other: Thumb -> Option<string>)
    ensures |Catalog(chat, history, fetch)| == |Catalog(chat, history, other)|
    ensures forall k :: 0 <= k < |Catalog(chat, history, fetch)| ==>
      HasVideo(Sources(history)[k]) &&
      var e, v := Catalog(chat, history, fetch)[k], Sources(history)[k].video.value;
      && e.url == Catalog(chat, history, other)[k].url
      && e.caption == Catalog(chat, history, other)[k].caption
      && e.thumbnail == Thumbnail(v, fetch)
  {
    Seqs.FilterAll(HasVideo, Seqs.Reverse(history));
  }

  /** Public chats: every row links to `https://t.me/<handle>/<id>` of its post. */
  lemma PublicLinks(chat: Entity, history: seq<Message>, fetch: Thumb -> Option<string>)
    requires HasHandle(chat)
    ensures forall k :: 0 <= k < |Catalog(chat, history, fetch)| ==>
      Catalog(chat, history, fetch)[k].url
        == "https://t.me/" + chat.username.value + "/" + IntToString(Sources(history)[k].id)
  {
  }

  /** Private chats: the link uses the printed chat id with the supergroup marker removed
      when it begins with it, and the printed id as it is otherwise; a chat id that is not
      negative (the form the client gives for a channel) appears unchanged. */
  lemma PrivateLinks(chat: Entity, history: seq<Message>, fetch: Thumb -> Option<string>)
    requires !HasHandle(chat)
    ensures forall k :: 0 <= k < |Catalog(chat, history, fetch)| ==>
      var s := IntToString(chat.id);
      Catalog(chat, history, fetch)[k].url
        == "https://t.me/c/" + (if |s| >= 4 && s[..4] == SupergroupMarker then s[4..] else s)
           + "/" + IntToString(Sources(history)[k].id)
    ensures chat.id >= 0 ==> forall k :: 0 <= k < |Catalog(chat, history, fetch)| ==>
      Catalog(chat, history, fetch)[k].url
        == "https://t.me/c/" + IntToString(chat.id) + "/" + IntToString(Sources(history)[k].id)
  {
    var s := IntToString(chat.id);
    StripMarkerOfId(chat.id);
    if chat.id >= 0 && |s| >= 4 {
      assert s[..4][0] == s[0] != '-';
    }
  }

  /** For a chat whose id prints as the marker followed by a chat number, the form the
      invite step builds, the link carries the chat number itself. */
  lemma MarkedPrivateLinks(chat: Entity, chatNumber: nat, history: seq<Message>, fetch: Thumb -> Option<string>)
    requires !HasHandle(chat)
    requires IntToString(chat.id) == SupergroupMarker + NatToString(chatNumber)
    ensures forall k :: 0 <= k < |Catalog(chat, history, fetch)| ==>
      Catalog(chat, history, fetch)[k].url
        == "https://t.me/c/" + NatToString(chatNumber) + "/" + IntToString(Sources(history)[k].id)
  {
    var s := IntToString(chat.id);
    PrivateLinks(chat, history, fetch);
    assert s[..4] == SupergroupMarker && s[4..] == NatToString(chatNumber);
  }
}
