/** The page generator of the user-account script in main.py: a grid of cards, each a
    preview image (when there is one), a link to the post and the escaped caption. */
module AccountPage {
  import opened Wrappers
  import opened Seqs
  import opened Text
  import opened Html
  import opened Telegram
  import opened AccountCatalog

  // The document text around the cards; only its position in the page matters here.

  const GridHead: string :=
    "\n" +
    "    <!DOCTYPE html>\n" +
    "    <html lang=\"pt-BR\">\n" +
    "    <head>\n" +
    "        <meta charset=\"UTF-8\">\n" +
    "        <meta name=\"viewport\" content=\"width=device-width, initial-scale=1.0\">\n" +
    "        <title>Lista de V\U{ed}deos do Telegram</title>\n" +
    "        <style>\n" +
    "            body { font-family: -apple-system, BlinkMacSystemFont, \"Segoe UI\", Roboto, Helvetica, Arial, sans-serif; background-color: #f0f2f5; color: #1c1e21; margin: 0; padding: 20px; }\n" +
    "            .container { max-width: 1200px; margin: auto; }\n" +
    "            h1 { text-align: center; color: #1877f2; margin-bottom: 30px; }\n" +
    "\n" +
    "            /* --- ESTILO DE GRELHA (GRID) --- */\n" +
    "            .grid-container {\n" +
    "                display: grid;\n" +
    "                grid-template-columns: repeat(auto-fit, minmax(300px, 1fr));\n" +
    "                gap: 20px;\n" +
    "            }\n" +
    "            .video-card {\n" +
    "                background-color: #fff;\n" +
    "                border-radius: 8px;\n" +
    "                box-shadow: 0 2px 4px rgba(0,0,0,0.1);\n" +
    "                overflow: hidden; /* Garante que a miniatura n\U{e3}o vaze */\n" +
    "                transition: transform 0.2s;\n" +
    "            }\n" +
    "            .video-card:hover {\n" +
    "                transform: translateY(-5px);\n" +
    "                box-shadow: 0 4px 8px rgba(0,0,0,0.15);\n" +
    "            }\n" +
    "            .video-content {\n" +
    "                padding: 15px;\n" +
    "            }\n" +
    "            .video-card a {\n" +
    "                text-decoration: none;\n" +
    "                font-weight: bold;\n" +
    "                color: #1877f2;\n" +
    "                font-size: 1.1em;\n" +
    "                display: block; /* Ocupa toda a \U{e1}rea para ser clic\U{e1}vel */\n" +
    "            }\n" +
    "            .video-card img {\n" +
    "                width: 100%;\n" +
    "                height: auto;\n" +
    "                display: block;\n" +
    "                object-fit: cover; /* Assegura que a imagem preenche o espa\U{e7}o */\n" +
    "                border-bottom: 1px solid #eee;\n" +
    "            }\n" +
    "            .video-card p { \n" +
    "                margin-top: 8px; \n" +
    "                color: #606770; \n" +
    "                white-space: pre-wrap; \n" +
    "                word-wrap: break-word; \n" +
    "                font-size: 0.9em;\n" +
    "                max-height: 4.5em; /* Limita a legenda a cerca de 3 linhas */\n" +
    "                overflow: hidden;\n" +
    "            }\n" +
    "            footer { text-align: center; margin-top: 30px; font-size: 0.8em; color: #90949c; }\n" +
    "        </style>\n" +
    "    </head>\n" +
    "    <body>\n" +
    "        <div class=\"container\">\n" +
    "            <h1>\U{1f3ac}ONE PIECE</h1>\n" +
    "    "

  const GridFoot: string :=
    "\n" +
    "        <footer>P\U{e1}gina gerada automaticamente.</footer>\n" +
    "        </div>\n" +
    "    </body>\n" +
    "    </html>\n" +
    "    "

  const GridOpen: string := "<div class='grid-container'>"
  const GridClose: string := "</div>"

  // The literal text of one card around its link, image and caption.

  const CardOpen: string :=
    "\n            <div class=\"video-card\">\n                <a href=\""
  const ImageLinkClose: string :=
    "\" target=\"_blank\" rel=\"noopener noreferrer\">\n                    "
  const CardMiddle: string :=
    "\n                </a>\n                <div class=\"video-content\">\n                    <a href=\""
  const WatchLinkClose: string :=
    "\" target=\"_blank\" rel=\"noopener noreferrer\">Assistir V\U{ed}deo</a>\n                    <p>"
  const CardClose: string :=
    "</p>\n                </div>\n            </div>\n            "

  const ImageOpen: string := "<img src=\"data:image/jpeg;base64,"
  const ImageClose: string := "\" alt=\"Miniatura do V\U{ed}deo\">"

  /** The inline image of a card: present exactly when the entry has a thumbnail. */
  function ThumbnailTag(thumbnail: string): (tag: string)
    ensures tag == "" <==> thumbnail == ""
    ensures thumbnail != "" ==> tag == ImageOpen + thumbnail + ImageClose
  {
    if thumbnail != "" then ImageOpen + thumbnail + ImageClose else ""
  }

  /** The text of the card up to its caption. */
  function CardFront(e: Entry): string {
    CardOpen + e.url + ImageLinkClose + ThumbnailTag(e.thumbnail) + CardMiddle + e.url + WatchLinkClose
  }

  function Card(e: Entry): string {
    CardFront(e) + Escape(e.caption) + CardClose
  }

  /** The cards of the entries, one per entry, in order. */
  function CardTexts(entries: seq<Entry>): seq<string> {
    Map(Card, entries)
  }

  /** What the generator puts between the fixed head and foot. */
  function Body(entries: seq<Entry>): string {
    if |entries| == 0 then NoVideosParagraph else GridOpen + Concat(CardTexts(entries)) + GridClose
  }

  /** The branch of `gerar_html` between head and foot: the placeholder exactly when there
      are no entries, and otherwise the grid container with the k-th card, for every k,
      between the cards of the entries before it and those after it. */
  method RenderBody(entries: seq<Entry>) returns (body: string)
    ensures body == NoVideosParagraph <==> |entries| == 0
    ensures forall k :: 0 <= k < |entries| ==>
      body == GridOpen + Concat(CardTexts(entries[..k])) + Card(entries[k]) + Concat(CardTexts(entries[k + 1..])) + GridClose
  {
    if |entries| == 0 {
      body := NoVideosParagraph;
    } else {
      var cards := ConcatMap(Card, entries);
      body := GridOpen + cards + GridClose;
    }
    assert body == Body(entries);
    PageEmpty(entries);
    forall k | 0 <= k < |entries|
      ensures body == GridOpen + Concat(CardTexts(entries[..k])) + Card(entries[k]) + Concat(CardTexts(entries[k + 1..])) + GridClose
    {
      CardOrder(entries, k);
    }
  }

  /** `gerar_html` as the script runs it: between the fixed head and foot, the placeholder
      exactly when there are no entries, and otherwise the grid of cards in entry order. */
  method RenderPage(entries: seq<Entry>) returns (html: string)
    ensures html == GridHead + NoVideosParagraph + GridFoot <==> |entries| == 0
    ensures forall k :: 0 <= k < |entries| ==>
      html == GridHead
            + (GridOpen + Concat(CardTexts(entries[..k])) + Card(entries[k]) + Concat(CardTexts(entries[k + 1..])) + GridClose)
            + GridFoot
  {
    var body := RenderBody(entries);
    html := GridHead + body + GridFoot;
    FrameCancel(GridHead, body, NoVideosParagraph, GridFoot);
  }

  /** A grid, whatever its cards, is never the no-videos paragraph. */
  lemma GridIsNotParagraph(cards: string)
    ensures GridOpen + cards + GridClose != NoVideosParagraph
  {
    assert (GridOpen + cards + GridClose)[1] == 'd';
    assert NoVideosParagraph[1] == 'p';
  }

  /** The page shows the no-videos paragraph in place of the grid exactly when there are no
      entries; otherwise the grid holds the cards and nothing else. */
  lemma PageEmpty(entries: seq<Entry>)
    ensures Body(entries) == NoVideosParagraph <==> |entries| == 0
    ensures |entries| > 0 ==> Body(entries) == GridOpen + Concat(CardTexts(entries)) + GridClose
  {
    if |entries| > 0 {
      GridIsNotParagraph(Concat(CardTexts(entries)));
    }
  }

  /** One card per entry in input order: the k-th card of the page is the card of the k-th
      entry, after the cards of the entries before it and before those after it. */
  lemma CardOrder(entries: seq<Entry>, k: nat)
    requires k < |entries|
    ensures Body(entries)
         == GridOpen + Concat(CardTexts(entries[..k])) + Card(entries[k]) + Concat(CardTexts(entries[k + 1..])) + GridClose
  {
    var cards := Concat(CardTexts(entries));
    assert Body(entries) == GridOpen + cards + GridClose;
    ConcatMapAt(Card, entries, k);
    Enclose(GridOpen, Concat(CardTexts(entries[..k])), Card(entries[k]), Concat(CardTexts(entries[k + 1..])), GridClose);
  }

  /** Regrouping a framed three-part text; stated over plain strings so that the literal
      frame stays out of the proof. */
  lemma Enclose(left: string, before: string, mid: string, after: string, right: string)
    ensures left + (before + mid + after) + right == left + before + mid + after + right
  {
  }

  /** The caption text of a card holds no angle bracket and reads back as the entry's
      caption; the card has an image exactly when the entry has a thumbnail. */
  lemma CardContent(e: Entry)
    ensures '<' !in Escape(e.caption) && '>' !in Escape(e.caption)
    ensures Unescape(Escape(e.caption)) == e.caption
    ensures (ThumbnailTag(e.thumbnail) == "") <==> (e.thumbnail == "")
  {
    EscapeHasNoAngles(e.caption);
    UnescapeEscape(e.caption);
  }

  /** End to end: the page of a history shows the no-videos paragraph exactly when no post of
      the history carries a video. */
  lemma PlaceholderIffNoVideo(chat: Entity, history: seq<Message>, fetch: Thumb -> Option<string>)
    ensures Body(Catalog(chat, history, fetch)) == NoVideosParagraph
        <==> forall m :: m in history ==> !HasVideo(m)
  {
    var src := Sources(history);
    PageEmpty(Catalog(chat, history, fetch));
    if |src| > 0 {
      SourcesAreVideoPosts(history, src[0]);
    } else {
      forall m | m in history
        ensures !HasVideo(m)
      {
        SourcesAreVideoPosts(history, m);
      }
    }
  }
}
