/**
 * The two handlers of src/pages/EditorMenuBar.tsx that decide something:
 * the link prompt (`handleLinkUpdate`) and image insertion (`insertImage`).
 * The rich-text editor is external; a handler's result is the command chain
 * it runs on it (`editor.chain()...run()`), empty when it runs none.
 */
module EditorMenu {
  import opened Js
  import opened Text

  datatype Command = Focus | ExtendMarkRange(mark: string) | UnsetLink | SetLink(href: string) | SetImage(src: string)

  const Scheme := "http://"

  /** `url.trim().indexOf('://') > 0 ? url.trim() : 'http://' + url.trim()`:
      the result always holds `'://'` after its first character, carries no
      outer white space, and is the trimmed input with or without `'http://'`
      in front. */
  function SanitizeUrl(url: string): (href: string)
    ensures IndexOf(href, "://") > 0
    ensures IsTrimmed(href)
    ensures href == Trim(url) || href == Scheme + Trim(url)
  {
    var t := Trim(url);
    TrimIsTrimmed(url);
    if IndexOf(t, "://") > 0 then t
    else
      SchemeSeparatorAt4(t);
      SchemeKeepsTrimmed(t);
      Scheme + t
  }

  /** `'://'` occurs in `'http://' + t` first at index 4. */
  lemma SchemeSeparatorAt4(t: string)
    ensures IndexOf(Scheme + t, "://") == 4
  {
    var s := Scheme + t;
    assert OccursAt(s, "://", 4) by { assert s[4..7] == "://"; }
    forall k | 0 <= k < 4 ensures !OccursAt(s, "://", k) {
      assert s[k] == Scheme[k];
    }
  }

  /** Putting `'http://'` in front of a trimmed string keeps it trimmed. */
  lemma SchemeKeepsTrimmed(t: string)
    requires IsTrimmed(t)
    ensures IsTrimmed(Scheme + t)
  {
    var s := Scheme + t;
    assert s[0] == 'h';
    if t == [] {
      assert s == Scheme;
    } else {
      assert s[|s| - 1] == t[|t| - 1];
    }
  }

  /** Every sanitised URL holds `'://'` after its first character and has no
      white space at either end; with a scheme the trimmed input is kept,
      without one `'http://'` is put in front of it. */
  lemma SanitizedShape(url: string)
    ensures IndexOf(SanitizeUrl(url), "://") > 0
    ensures IsTrimmed(SanitizeUrl(url))
    ensures IndexOf(Trim(url), "://") > 0 ==> SanitizeUrl(url) == Trim(url)
    ensures IndexOf(Trim(url), "://") <= 0 ==> SanitizeUrl(url) == Scheme + Trim(url)
  {
  }

  /** Sanitising a sanitised URL changes nothing. */
  lemma SanitizeIdempotent(url: string)
    ensures SanitizeUrl(SanitizeUrl(url)) == SanitizeUrl(url)
  {
    SanitizedShape(url);
    TrimOfTrimmed(SanitizeUrl(url));
  }

  /** `handleLinkUpdate` given what `window.prompt` returned (`None` for a
      cancelled prompt): nothing, unset the link over the whole mark, or set
      it to the sanitised URL. Only the empty string unsets. */
  function HandleLinkUpdate(prompted: Option<string>): (chain: seq<Command>)
    ensures prompted.None? ==> chain == []
    ensures prompted == Some("") ==> chain == [Focus, ExtendMarkRange("link"), UnsetLink]
    ensures (prompted.Some? && prompted.value != "") ==>
              chain == [Focus, ExtendMarkRange("link"), SetLink(SanitizeUrl(prompted.value))]
  {
    match prompted
    case None => []
    case Some(url) =>
      if url == "" then [Focus, ExtendMarkRange("link"), UnsetLink]
      else [Focus, ExtendMarkRange("link"), SetLink(SanitizeUrl(url))]
  }

  /** A link is set only to a URL that holds `'://'` past its first character
      and carries no outer white space, and an unset never comes with a set. */
  lemma LinkCommandsWellFormed(prompted: Option<string>)
    ensures forall c :: c in HandleLinkUpdate(prompted) && c.SetLink? ==>
              IndexOf(c.href, "://") > 0 && IsTrimmed(c.href)
    ensures !(UnsetLink in HandleLinkUpdate(prompted) && exists c :: c in HandleLinkUpdate(prompted) && c.SetLink?)
  {
    var chain := HandleLinkUpdate(prompted);
    if prompted.Some? && prompted.value != "" {
      var href := SanitizeUrl(prompted.value);
      SanitizedShape(prompted.value);
      assert chain == [Focus, ExtendMarkRange("link"), SetLink(href)];
      forall c | c in chain && c.SetLink?
        ensures IndexOf(c.href, "://") > 0 && IsTrimmed(c.href)
      {
        assert c == chain[2];
      }
      assert UnsetLink !in chain;
    } else {
      assert forall c :: c in chain ==> !c.SetLink?;
    }
  }

  /** White space alone is not the empty answer: it sets the link `'http://'`. */
  lemma BlankAnswerSetsBareScheme(url: string)
    requires url != "" && IsBlank(url)
    ensures HandleLinkUpdate(Some(url)) == [Focus, ExtendMarkRange("link"), SetLink(Scheme)]
  {
    TrimEmptyIffBlank(url);
    assert IndexOf([], "://") == -1;
    assert Scheme + [] == Scheme;
  }

  /** `insertImage`: the image goes in only when a file was chosen and the
      reader produced a non-empty data URL; `fileCount` is the length of the
      input's file list and `readerResult` the reader's result. */
  function InsertImage(fileCount: nat, readerResult: Option<string>): (chain: seq<Command>)
    ensures chain != [] <==> fileCount > 0 && Present(readerResult)
    ensures chain != [] ==> chain == [Focus, SetImage(readerResult.value)]
  {
    if fileCount > 0 then
      if readerResult.Some? && readerResult.value != [] then [Focus, SetImage(readerResult.value)] else []
    else []
  }
}
