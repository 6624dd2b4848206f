/** The page generator of bot_videos.py: a list of cards, each a direct link to the post
    and the escaped caption. */
module BotPage {
  import opened Seqs
  import opened Text
  import opened Html
  import opened Telegram
  import opened BotCatalog

  // The document text around the cards; only its position in the page matters here.

  const ListHead: string :=
    "\n" +
    "    <!DOCTYPE html>\n" +
    "    <html lang=\"pt-BR\">\n" +
    "    <head>\n" +
    "        <meta charset=\"UTF-8\">\n" +
    "        <meta name=\"viewport\" content=\"width=device-width, initial-scale=1.0\">\n" +
    "        <title>Lista de V\U{ed}deos do Telegram</title>\n" +
    "        <style>\n" +
    "            body { font-family: -apple-system, BlinkMacSystemFont, \"Segoe UI\", Roboto, Helvetica, Arial, sans-serif; background-color: #f0f2f5; color: #1c1e21; margin: 0; padding: 20px; }\n" +
    "            .container { max-width: 800px; margin: auto; background-color: #fff; border-radius: 8px; box-shadow: 0 2px 4px rgba(0,0,0,0.1); padding: 20px; }\n" +
    "            h1 { text-align: center; color: #1877f2; }\n" +
    "            .video-card { border: 1px solid #ddd; border-radius: 8px; padding: 15px; margin-bottom: 15px; }\n" +
    "            .video-card a { text-decoration: none; font-weight: bold; color: #1877f2; font-size: 1.1em; }\n" +
    "            .video-card p { margin-top: 8px; color: #606770; white-space: pre-wrap; word-wrap: break-word; }\n" +
    "            footer { text-align: center; margin-top: 20px; font-size: 0.8em; color: #90949c; }\n" +
    "        </style>\n" +
    "    </head>\n" +
    "    <body>\n" +
    "        <div class=\"container\">\n" +
    "            <h1>\U{1f3f4}\U{200d}\U{2620} One Piece</h1>\n" +
    "    "

  const ListFoot: string :=
    "\n" +
    "        <footer>Boss B</footer>\n" +
    "        </div>\n" +
    "    </body>\n" +
    "    </html>\n" +
    "    "

  // The literal text of one card around its link and caption.

  const CardOpen: string :=
    "\n" +
    "            <div class=\"video-card\">\n" +
    "                <a href=\""
  const LinkClose: string :=
    "\" target=\"_blank\" rel=\"noopener noreferrer\">Assistir V\U{ed}deo (Link Direto)</a>\n" +
    "                <p>"
  const CardClose: string :=
    "</p>\n" +
    "            </div>\n" +
    "            "

  function Card(e: Entry): string {
    CardOpen + e.url + LinkClose + Escape(e.caption) + CardClose
  }

  /** The cards of the entries, one per entry, in order. */
  function CardTexts(entries: seq<Entry>): seq<string> {
    Map(Card, entries)
  }

  /** What the generator puts between the fixed head and foot: the no-videos paragraph,
      or the cards one after another with no wrapper around them. */
  function Body(entries: seq<Entry>): string {
    if |entries| == 0 then NoVideosParagraph else Concat(CardTexts(entries))
  }

  /** `gerar_html` as the script runs it: between the fixed head and foot, the placeholder
      exactly when there are no entries, and otherwise the cards in entry order. */
  method RenderPage(entries: seq<Entry>) returns (html: string)
    ensures html == ListHead + NoVideosParagraph + ListFoot <==> |entries| == 0
    ensures forall k :: 0 <= k < |entries| ==>
      html == ListHead
            + (Concat(CardTexts(entries[..k])) + Card(entries[k]) + Concat(CardTexts(entries[k + 1..])))
            + ListFoot
  {
    var body: string;
    if |entries| == 0 {
      body := NoVideosParagraph;
    } else {
      body := ConcatMap(Card, entries);
    }
    html := ListHead + body + ListFoot;
    assert body == Body(entries);
    PageEmpty(entries);
    FrameCancel(ListHead, body, NoVideosParagraph, ListFoot);
    forall k | 0 <= k < |entries|
      ensures body == Concat(CardTexts(entries[..k])) + Card(entries[k]) + Concat(CardTexts(entries[k + 1..]))
    {
      CardOrder(entries, k);
    }
  }

  /** Text that begins with a card is never the no-videos paragraph. */
  lemma CardsAreNotParagraph(e: Entry, rest: string)
    ensures Card(e) + rest != NoVideosParagraph
  {
    assert (Card(e) + rest)[0] == '\n';
    assert NoVideosParagraph[0] == '<';
  }

  /** The page shows the no-videos paragraph exactly when there are no entries; otherwise it
      shows the cards and nothing else. */
  lemma PageEmpty(entries: seq<Entry>)
    ensures Body(entries) == NoVideosParagraph <==> |entries| == 0
    ensures |entries| > 0 ==> Body(entries) == Concat(CardTexts(entries))
  {
    if |entries| > 0 {
      var cards := CardTexts(entries);
      assert cards[0] == Card(entries[0]);
      CardsAreNotParagraph(entries[0], Concat(cards[1..]));
    }
  }

  /** One card per entry in input order: the k-th card of the page is the card of the k-th
      entry, after the cards of the entries before it and before those after it. */
  lemma CardOrder(entries: seq<Entry>, k: nat)
    requires k < |entries|
    ensures Body(entries)
         == Concat(CardTexts(entries[..k])) + Card(entries[k]) + Concat(CardTexts(entries[k + 1..]))
  {
    ConcatMapAt(Card, entries, k);
  }

  /** The caption text of a card holds no angle bracket and reads back as the entry's
      caption. */
  lemma CardContent(e: Entry)
    ensures '<' !in Escape(e.caption) && '>' !in Escape(e.caption)
    ensures Unescape(Escape(e.caption)) == e.caption
  {
    EscapeHasNoAngles(e.caption);
    UnescapeEscape(e.caption);
  }

  /** End to end: the page of a history shows the no-videos paragraph exactly when no post of
      the history is a video of 600 to 7200 seconds in a chat with a handle. */
  lemma PlaceholderIffNothingKept(history: seq<Message>)
    ensures Body(Catalog(history)) == NoVideosParagraph
        <==> forall m :: m in history ==> !Kept(m)
  {
    var src := Filter(Kept, history);
    PageEmpty(Catalog(history));
    if |src| > 0 {
      FilterMembership(Kept, history, src[0]);
    } else {
      forall m | m in history
        ensures !Kept(m)
      {
        FilterMembership(Kept, history, m);
      }
    }
  }
}
