/** The caption escaping both page generators apply before placing a caption inside a
    `<p>` element: `&`, then `<`, then `>`, each replaced by its character reference. */
module Html {
  import opened Text

  /** The paragraph both pages show when there is no video to list. */
  const NoVideosParagraph: string :=
    "<p>" + "Nenhum v\U{ed}deo encontrado com os crit\U{e9}rios definidos." + "</p>"

  /** The three chained `str.replace` calls, in the order the scripts make them. */
  function Escape(s: string): string {
    ReplaceAll(ReplaceAll(ReplaceAll(s, "&", "&amp;"), "<", "&lt;"), ">", "&gt;")
  }

  /** The inverse chain: `&lt;`, then `&gt;`, then `&amp;` last. */
  function Unescape(s: string): string {
    ReplaceAll(ReplaceAll(ReplaceAll(s, "&lt;", "<"), "&gt;", ">"), "&amp;", "&")
  }

  /** Reference definition: each character escaped on its own. */
  function EscapeChar(c: char): string {
    if c == '&' then "&amp;" else if c == '<' then "&lt;" else if c == '>' then "&gt;" else [c]
  }

  /** A character reference the escaper can emit begins `t`. */
  predicate StartsReference(t: string) {
    (|t| >= 5 && t[..5] == "&amp;") || (|t| >= 4 && t[..4] == "&lt;") || (|t| >= 4 && t[..4] == "&gt;")
  }

  // The chunks after each single replacement, on the way in and on the way out.

  function AmpDone(c: char): string {
    if c == '&' then "&amp;" else [c]
  }

  function LtDone(c: char): string {
    if c == '&' then "&amp;" else if c == '<' then "&lt;" else [c]
  }

  function LtUndone(c: char): string {
    if c == '&' then "&amp;" else if c == '>' then "&gt;" else [c]
  }

  function GtUndone(c: char): string {
    if c == '&' then "&amp;" else [c]
  }

  lemma EscapeSteps()
    ensures forall c :: Rewrites(Singleton(c), AmpDone(c), "&", "&amp;")
    ensures forall c :: Rewrites(AmpDone(c), LtDone(c), "<", "&lt;")
    ensures forall c :: Rewrites(LtDone(c), EscapeChar(c), ">", "&gt;")
  {
  }

  lemma UnescapeSteps()
    ensures forall c :: Rewrites(EscapeChar(c), LtUndone(c), "&lt;", "<")
    ensures forall c :: Rewrites(LtUndone(c), GtUndone(c), "&gt;", ">")
    ensures forall c :: Rewrites(GtUndone(c), Singleton(c), "&amp;", "&")
  {
    forall c ensures Rewrites(EscapeChar(c), LtUndone(c), "&lt;", "<") {
      if c == '&' {
        assert "&amp;"[..4] != "&lt;" by { assert "&amp;"[1] != "&lt;"[1]; }
      } else if c == '>' {
        assert "&gt;"[..4] != "&lt;" by { assert "&gt;"[1] != "&lt;"[1]; }
      }
    }
    forall c ensures Rewrites(LtUndone(c), GtUndone(c), "&gt;", ">") {
      if c == '&' {
        assert "&amp;"[..4] != "&gt;" by { assert "&amp;"[1] != "&gt;"[1]; }
      }
    }
  }

  /** The chained replacements escape every character independently. */
  lemma EscapeIsPerCharacter(s: string)
    ensures Escape(s) == Expand(s, EscapeChar)
  {
    EscapeSteps();
    ExpandSingleton(s);
    ReplaceAllExpand(s, Singleton, AmpDone, "&", "&amp;");
    ReplaceAllExpand(s, AmpDone, LtDone, "<", "&lt;");
    ReplaceAllExpand(s, LtDone, EscapeChar, ">", "&gt;");
  }

  /** An escaped caption contains no angle bracket, so it cannot open or close a tag. */
  lemma EscapeHasNoAngles(s: string)
    ensures '<' !in Escape(s) && '>' !in Escape(s)
  {
    EscapeIsPerCharacter(s);
    ExpandAvoids(s, EscapeChar, '<');
    ExpandAvoids(s, EscapeChar, '>');
  }

  /** Every `&` of an escaped caption begins `&amp;`, `&lt;` or `&gt;`. */
  lemma {:induction false} EscapedAmpersands(s: string)
    ensures forall i :: 0 <= i < |Expand(s, EscapeChar)| && Expand(s, EscapeChar)[i] == '&' ==>
      StartsReference(Expand(s, EscapeChar)[i..])
  {
    if |s| > 0 {
      EscapedAmpersands(s[1..]);
      var ch, rest := EscapeChar(s[0]), Expand(s[1..], EscapeChar);
      var e := ch + rest;
      assert Expand(s, EscapeChar) == e;
      forall i | 0 <= i < |e| && e[i] == '&'
        ensures StartsReference(e[i..])
      {
        if i < |ch| {
          assert i == 0 && (s[0] == '&' || s[0] == '<' || s[0] == '>');
          assert e[..|ch|] == ch;
        } else {
          assert e[i..] == rest[i - |ch|..];
        }
      }
    }
  }

  /** The escaping property in terms of the scripts' own chain. */
  lemma EscapeAmpersands(s: string)
    ensures forall i :: 0 <= i < |Escape(s)| && Escape(s)[i] == '&' ==> StartsReference(Escape(s)[i..])
  {
    EscapeIsPerCharacter(s);
    EscapedAmpersands(s);
  }

  /** Undoing the references, `&amp;` last, gives back the original caption. */
  lemma UnescapeEscape(s: string)
    ensures Unescape(Escape(s)) == s
  {
    EscapeIsPerCharacter(s);
    UnescapeSteps();
    ReplaceAllExpand(s, EscapeChar, LtUndone, "&lt;", "<");
    ReplaceAllExpand(s, LtUndone, GtUndone, "&gt;", ">");
    ReplaceAllExpand(s, GtUndone, Singleton, "&amp;", "&");
    ExpandSingleton(s);
  }

  /** Text without the three special characters is left as it is. */
  lemma EscapePlain(s: string)
    requires '&' !in s && '<' !in s && '>' !in s
    ensures Escape(s) == s
  {
    ReplaceAllAbsent(s, "&", "&amp;");
    ReplaceAllAbsent(s, "<", "&lt;");
    ReplaceAllAbsent(s, ">", "&gt;");
  }
}
