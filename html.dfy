/** What the table renderer puts into markup: `escapeHtml`, the thumbnail URL
    cleanup and the cells of one table row. */
module Html {
  import Common
  import opened Catalog
  import opened Strings

  // ---------------------------------------------------------------- escapeHtml

  /** The characters `escapeHtml` replaces by entities. */
  predicate IsSpecial(c: char)
  {
    c == '&' || c == '<' || c == '>' || c == '"' || c == '\''
  }

  /** Characters that can open a tag or close an attribute value. */
  predicate IsMarkup(c: char)
  {
    c == '<' || c == '>' || c == '"' || c == '\''
  }

  /** The entity `escapeHtml` writes for one character (the lookup `map[m]`). */
  function EscapeChar(c: char): string
  {
    if c == '&' then "&amp;"
    else if c == '<' then "&lt;"
    else if c == '>' then "&gt;"
    else if c == '"' then "&quot;"
    else if c == '\'' then "&#039;"
    else [c]
  }

  /** `escapeHtml(text)`: one left-to-right pass replacing each special character by its entity. */
  function EscapeHtml(s: string): (r: string)
    ensures forall k :: 0 <= k < |r| ==> !IsMarkup(r[k])
  {
    if s == [] then [] else EscapeChar(s[0]) + EscapeHtml(s[1..])
  }

  /** Escaping never shortens the text, and leaves it unchanged exactly when it holds none of
      the five special characters. */
  lemma {:induction false} EscapeHtmlIdentity(s: string)
    ensures |EscapeHtml(s)| >= |s|
    ensures EscapeHtml(s) == s <==> forall k :: 0 <= k < |s| ==> !IsSpecial(s[k])
  {
    if s != [] {
      EscapeHtmlIdentity(s[1..]);
      assert forall k :: 1 <= k < |s| ==> s[1..][k - 1] == s[k];
      if EscapeHtml(s) == s {
        assert EscapeHtml(s[1..]) == s[1..];
      }
    }
  }

  /** Reads entities back: each of the five entities becomes its character, anything else is copied. */
  function UnescapeHtml(s: string): string
    decreases |s|
  {
    if s == [] then []
    else if "&amp;" <= s then "&" + UnescapeHtml(s[5..])
    else if "&lt;" <= s then "<" + UnescapeHtml(s[4..])
    else if "&gt;" <= s then ">" + UnescapeHtml(s[4..])
    else if "&quot;" <= s then "\"" + UnescapeHtml(s[6..])
    else if "&#039;" <= s then "'" + UnescapeHtml(s[6..])
    else [s[0]] + UnescapeHtml(s[1..])
  }

  /** Unescaping reads the entity of one character back as that character. */
  lemma UnescapeEscapedChar(c: char, rest: string)
    ensures UnescapeHtml(EscapeChar(c) + rest) == [c] + UnescapeHtml(rest)
  {
    var e := EscapeChar(c);
    var t := e + rest;
    assert t[|e|..] == rest;
    if c == '&' {
      assert "&amp;" <= t;
    } else if IsSpecial(c) {
      assert t[0] == '&' && t[1] == e[1];
    } else {
      assert t[0] == c;
    }
  }

  /** Escaping loses nothing: the original text is recovered from the markup. */
  lemma {:induction false} EscapeHtmlRoundTrip(s: string)
    ensures UnescapeHtml(EscapeHtml(s)) == s
  {
    if s != [] {
      EscapeHtmlRoundTrip(s[1..]);
      UnescapeEscapedChar(s[0], EscapeHtml(s[1..]));
      assert [s[0]] + s[1..] == s;
    }
  }

  /** The pass is per character: escaping a concatenation escapes each part. */
  lemma {:induction false} EscapeHtmlConcat(a: string, b: string)
    ensures EscapeHtml(a + b) == EscapeHtml(a) + EscapeHtml(b)
  {
    if a != [] {
      assert a + b == [a[0]] + (a[1..] + b);
      assert a == [a[0]] + a[1..];
      EscapeHtmlCons(a[0], a[1..] + b);
      EscapeHtmlCons(a[0], a[1..]);
      EscapeHtmlConcat(a[1..], b);
    } else {
      assert a + b == b;
    }
  }

  /** The pass handles the first character and moves on. */
  lemma EscapeHtmlCons(c: char, s: string)
    ensures EscapeHtml([c] + s) == EscapeChar(c) + EscapeHtml(s)
  {
    assert ([c] + s)[1..] == s;
  }

  /** Example: `<a>"x"</a>` becomes `&lt;a&gt;&quot;x&quot;&lt;/a&gt;`. */
  lemma EscapeHtmlExample()
    ensures EscapeHtml("<a>\"x\"</a>") == "&lt;a&gt;&quot;x&quot;&lt;/a&gt;"
  {
    var s1, s2, s3 := "<a>", "\"x\"", "</a>";
    EscapeExampleParts(s1, s2, s3);
    assert "<a>\"x\"</a>" == s1 + s2 + s3;
    ExampleEntities();
  }

  lemma ExampleEntities()
    ensures EscapeChar('<') + EscapeChar('a') + EscapeChar('>')
      + (EscapeChar('"') + EscapeChar('x') + EscapeChar('"'))
      + (EscapeChar('<') + (EscapeChar('/') + EscapeChar('a') + EscapeChar('>')))
      == "&lt;a&gt;&quot;x&quot;&lt;/a&gt;"
  {
    assert EscapeChar('<') == "&lt;" && EscapeChar('>') == "&gt;" && EscapeChar('"') == "&quot;";
    assert EscapeChar('a') == "a" && EscapeChar('x') == "x" && EscapeChar('/') == "/";
    assert "&lt;" + "a" + "&gt;" + ("&quot;" + "x" + "&quot;") + ("&lt;" + ("/" + "a" + "&gt;"))
      == "&lt;a&gt;&quot;x&quot;&lt;/a&gt;";
  }

  lemma EscapeExampleParts(s1: string, s2: string, s3: string)
    requires s1 == "<a>" && s2 == "\"x\"" && s3 == "</a>"
    ensures EscapeHtml(s1 + s2 + s3) == EscapeChar('<') + EscapeChar('a') + EscapeChar('>')
      + (EscapeChar('"') + EscapeChar('x') + EscapeChar('"'))
      + (EscapeChar('<') + (EscapeChar('/') + EscapeChar('a') + EscapeChar('>')))
  {
    EscapeHtmlConcat(s1 + s2, s3);
    EscapeHtmlConcat(s1, s2);
    EscapeTriple('<', 'a', '>');
    EscapeTriple('"', 'x', '"');
    EscapeHtmlCons('<', "/a>");
    EscapeTriple('/', 'a', '>');
    assert s3 == ['<'] + "/a>";
  }

  lemma EscapeTriple(a: char, b: char, c: char)
    ensures EscapeHtml([a, b, c]) == EscapeChar(a) + EscapeChar(b) + EscapeChar(c)
  {
    EscapeHtmlCons(c, []);
    EscapeHtmlCons(b, [c]);
    EscapeHtmlCons(a, [b, c]);
    assert [a] + [b, c] == [a, b, c];
    assert [b] + [c] == [b, c];
  }

  // ---------------------------------------------------------------- thumbnail URL

  /** The characters the thumbnail cleanup deletes: `[`, `]` and `"`. */
  predicate IsUrlNoise(c: char)
  {
    c == '[' || c == ']' || c == '"'
  }

  /** `url.replace(/[\[\]"]/g, '')`: every bracket and double quote is removed. */
  function StripUrlNoise(s: string): (r: string)
    ensures |r| <= |s|
    ensures forall k :: 0 <= k < |r| ==> !IsUrlNoise(r[k])
  {
    if s == [] then []
    else
      var rest := StripUrlNoise(s[1..]);
      if IsUrlNoise(s[0]) then rest else [s[0]] + rest
  }

  /** The cleanup keeps every other character as often as it occurs. */
  lemma {:induction false} StripUrlNoiseCounts(s: string)
    ensures forall c :: !IsUrlNoise(c) ==> multiset(StripUrlNoise(s))[c] == multiset(s)[c]
  {
    if s != [] {
      StripUrlNoiseCounts(s[1..]);
      assert s == [s[0]] + s[1..];
      assert multiset(s) == multiset{s[0]} + multiset(s[1..]);
    }
  }

  /** The cleanup leaves a URL unchanged exactly when it holds no bracket or quote. */
  lemma {:induction false} StripUrlNoiseIdentity(s: string)
    ensures StripUrlNoise(s) == s <==> forall k :: 0 <= k < |s| ==> !IsUrlNoise(s[k])
  {
    if s != [] {
      StripUrlNoiseIdentity(s[1..]);
      assert forall k :: 1 <= k < |s| ==> s[1..][k - 1] == s[k];
      if StripUrlNoise(s) == s {
        assert StripUrlNoise(s[1..]) == s[1..];
      }
    }
  }

  /** The cleanup works character by character and keeps the order of what it keeps: the
      cleaned concatenation is the concatenation of the cleaned parts. */
  lemma {:induction false} StripUrlNoiseConcat(a: string, b: string)
    ensures StripUrlNoise(a + b) == StripUrlNoise(a) + StripUrlNoise(b)
  {
    if a != [] {
      Common.HeadTail(a, b);
      StripUrlNoiseCons(a[0], a[1..] + b);
      StripUrlNoiseCons(a[0], a[1..]);
      StripUrlNoiseConcat(a[1..], b);
    } else {
      assert a + b == b;
    }
  }

  /** The cleanup drops a leading bracket or quote and keeps any other first character. */
  lemma StripUrlNoiseCons(c: char, s: string)
    ensures StripUrlNoise([c] + s) == (if IsUrlNoise(c) then [] else [c]) + StripUrlNoise(s)
  {
    assert ([c] + s)[1..] == s;
  }

  /** Cleaning twice is cleaning once. */
  lemma StripUrlNoiseIdempotent(s: string)
    ensures StripUrlNoise(StripUrlNoise(s)) == StripUrlNoise(s)
  {
    StripUrlNoiseIdentity(StripUrlNoise(s));
  }

  const ThumbnailPlaceholder := "https://via.placeholder.com/50"

  /** The first image, cleaned, or the placeholder when the product has no image. */
  function Thumbnail(images: seq<string>): (url: string)
    ensures forall k :: 0 <= k < |url| ==> !IsUrlNoise(url[k])
    ensures |images| > 0 ==> url == StripUrlNoise(images[0])
    ensures |images| == 0 ==> url == ThumbnailPlaceholder
  {
    if |images| > 0 then StripUrlNoise(images[0]) else ThumbnailPlaceholder
  }

  // ---------------------------------------------------------------- table row

  /** The text of the cells and of the description tooltip of one table row. */
  datatype Row = Row(
    idText: string,
    titleHtml: string,
    priceText: string,
    categoryText: string,
    imageUrl: string,
    tooltipHtml: string)

  const TooltipLead := "<strong>Description:</strong><br>"

  /** `createTableRow`: title and description are escaped, the price is prefixed with `$`,
      the category falls back to `N/A`, the image is the cleaned first URL. */
  function TableRow(p: Product, fmt: NumberFormat): (row: Row)
    ensures row.idText == fmt.idText(p.id)
    ensures row.titleHtml == EscapeHtml(p.title)
    ensures UnescapeHtml(row.titleHtml) == p.title
    ensures forall k :: 0 <= k < |row.titleHtml| ==> !IsMarkup(row.titleHtml[k])
    ensures row.tooltipHtml == TooltipLead + EscapeHtml(p.description)
    ensures UnescapeHtml(row.tooltipHtml[|TooltipLead|..]) == p.description
    ensures row.priceText == "$" + fmt.priceText(p.price)
    ensures row.categoryText == CategoryLabel(p)
    ensures row.imageUrl == Thumbnail(p.images)
    ensures forall k :: 0 <= k < |row.imageUrl| ==> row.imageUrl[k] != '"'
  {
    EscapeHtmlRoundTrip(p.title);
    EscapeHtmlRoundTrip(p.description);
    var tooltip := TooltipLead + EscapeHtml(p.description);
    assert tooltip[|TooltipLead|..] == EscapeHtml(p.description);
    Row(fmt.idText(p.id), EscapeHtml(p.title), "$" + fmt.priceText(p.price),
        CategoryLabel(p), Thumbnail(p.images), tooltip)
  }
}
