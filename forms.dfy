/** The form controllers of `saveEdit` and `createProduct` up to the request:
    validation of the already-parsed fields and the comma-separated image list. */
module Forms {
  import opened Common
  import opened Strings
  import opened Catalog

  const ImagePlaceholder: string := "https://placehold.co/600x400"

  /** The fields as read from the form: texts untrimmed, the price after `parseFloat` and the
      category after `parseInt`, `None` standing for `NaN`. */
  datatype FormInput = FormInput(
    title: string,
    price: Option<real>,
    description: string,
    categoryId: Option<int>,
    imagesText: string)

  /** The body of the PUT or POST request. */
  datatype Payload = Payload(
    title: string,
    price: real,
    description: string,
    categoryId: int,
    images: seq<string>)

  /** The three alerts that stop a submission before any request. */
  datatype FormError = MissingFields | PriceNotPositive | InvalidCategory

  // ---------------------------------------------------------------- images

  /** An image URL the parser can produce: nonempty, trimmed and without a comma. */
  predicate CleanUrl(u: string)
  {
    u != [] && IsTrimmed(u) && ',' !in u
  }

  /** `.map(img => img.trim()).filter(img => img)`. */
  function CleanPieces(pieces: seq<string>): (r: seq<string>)
    ensures |r| <= |pieces|
    ensures forall k :: 0 <= k < |r| ==> r[k] != [] && IsTrimmed(r[k])
  {
    if pieces == [] then []
    else
      var t := Trim(pieces[0]);
      var rest := CleanPieces(pieces[1..]);
      if t == [] then rest else [t] + rest
  }

  /** Cleaning one piece keeps its trimmed text when that is nonempty and drops it otherwise. */
  lemma CleanOnePiece(u: string)
    ensures CleanPieces([u]) == if Trim(u) == [] then [] else [Trim(u)]
  {
    assert [u][1..] == [];
  }

  /** Cleaning works piece by piece: the cleaned pieces of a concatenation are the cleaned
      pieces of each part, in order. With `CleanOnePiece` this fixes the result on every list. */
  lemma {:induction false} CleanPiecesConcat(a: seq<string>, b: seq<string>)
    ensures CleanPieces(a + b) == CleanPieces(a) + CleanPieces(b)
  {
    if a == [] {
      assert a + b == b;
    } else {
      CleanPiecesConcat(a[1..], b);
      CleanPiecesCons(a[0], a[1..]);
      CleanPiecesCons(a[0], a[1..] + b);
      HeadTail(a, b);
    }
  }

  lemma CleanPiecesCons(u: string, rest: seq<string>)
    ensures CleanPieces([u] + rest) == CleanPieces([u]) + CleanPieces(rest)
  {
    var s := [u] + rest;
    assert s[0] == u && s[1..] == rest;
    CleanOnePiece(u);
  }

  /** Every URL of the list is clean. */
  predicate AllClean(urls: seq<string>)
  {
    forall k :: 0 <= k < |urls| ==> CleanUrl(urls[k])
  }

  /** No piece holds a comma, as after `split(',')`. */
  predicate CommaFree(pieces: seq<string>)
  {
    forall k :: 0 <= k < |pieces| ==> ',' !in pieces[k]
  }

  lemma AllCleanCons(u: string, rest: seq<string>)
    requires CleanUrl(u) && AllClean(rest)
    ensures AllClean([u] + rest)
  {
  }

  lemma CommaFreeTail(pieces: seq<string>)
    requires pieces != [] && CommaFree(pieces)
    ensures CommaFree(pieces[1..]) && ',' !in pieces[0]
  {
    assert forall k :: 0 <= k < |pieces| - 1 ==> pieces[1..][k] == pieces[k + 1];
  }

  /** Trimming adds no character, so comma-free pieces clean to clean URLs. */
  lemma {:induction false} CleanPiecesAreClean(pieces: seq<string>)
    requires CommaFree(pieces)
    ensures AllClean(CleanPieces(pieces))
  {
    if pieces != [] {
      var t := Trim(pieces[0]);
      var rest := CleanPieces(pieces[1..]);
      CommaFreeTail(pieces);
      CleanPiecesAreClean(pieces[1..]);
      if t != [] {
        TrimKeepsOut(pieces[0], ',');
        AllCleanCons(t, rest);
      }
    }
  }

  /** The image list of the payload: the trimmed text split on `,`, each piece trimmed and the
      empty ones dropped; when nothing is left, the placeholder alone. */
  function ParseImages(imagesText: string): (images: seq<string>)
    ensures |images| >= 1
    ensures AllClean(images)
    ensures Trim(imagesText) == [] ==> images == [ImagePlaceholder]
    ensures var parsed := CleanPieces(Split(Trim(imagesText), ','));
      images == if parsed == [] then [ImagePlaceholder] else parsed
  {
    PlaceholderIsClean();
    var text := Trim(imagesText);
    var pieces := Split(text, ',');
    assert CommaFree(pieces);
    CleanPiecesAreClean(pieces);
    BlankPieces(text);
    var parsed := if text != [] then CleanPieces(pieces) else [];
    if parsed == [] then [ImagePlaceholder] else parsed
  }

  /** A blank text splits into one empty piece, which cleans to nothing. */
  lemma BlankPieces(text: string)
    ensures text == [] ==> CleanPieces(Split(text, ',')) == []
  {
    if text == [] {
      TrimShape(text);
      CleanOnePiece(text);
    }
  }

  /** Empty pieces between commas vanish: two clean URLs with an empty piece between them
      parse to just the two. */
  lemma EmptyPieceVanishes(u: string, v: string)
    requires CleanUrl(u) && CleanUrl(v)
    ensures ParseImages(u + [','] + ([','] + v)) == [u, v]
  {
    var text := u + [','] + ([','] + v);
    assert text[0] == u[0] && text[|text| - 1] == v[|v| - 1];
    TrimTrimmed(text);
    SplitAroundEmpty(u, v);
    CleanAroundEmpty(u, v);
  }

  lemma SplitAroundEmpty(u: string, v: string)
    requires ',' !in u && ',' !in v
    ensures Split(u + [','] + ([','] + v), ',') == [u] + ([[]] + [v])
  {
    var empty: string := [];
    var t := [','] + v;
    assert t == empty + [','] + v;
    SplitAfterPiece(empty, ',', v);
    SplitWithoutSeparator(v, ',');
    assert Split(t, ',') == [empty] + [v];
    SplitAfterPiece(u, ',', t);
  }

  lemma CleanAroundEmpty(u: string, v: string)
    requires CleanUrl(u) && CleanUrl(v)
    ensures CleanPieces([u] + ([[]] + [v])) == [u, v]
  {
    CleanPiecesConcat([u], [[]] + [v]);
    CleanPiecesConcat([[]], [v]);
    CleanOnePiece(u);
    CleanOnePiece([]);
    CleanOnePiece(v);
    TrimTrimmed(u);
    TrimTrimmed(v);
    TrimTrimmed([]);
  }

  /** Only white space and commas in the text. */
  predicate SpacesAndCommas(s: string)
  {
    forall k :: 0 <= k < |s| ==> IsSpace(s[k]) || s[k] == ','
  }

  /** A text of blank pieces, such as `" , "`, gives the placeholder alone. */
  lemma BlankTextGivesPlaceholder(imagesText: string)
    requires SpacesAndCommas(imagesText)
    ensures ParseImages(imagesText) == [ImagePlaceholder]
  {
    var text := Trim(imagesText);
    TrimShape(imagesText);
    assert SpacesAndCommas(text) by {
      forall k | 0 <= k < |text|
        ensures IsSpace(text[k]) || text[k] == ','
      {
        assert text[k] in imagesText;
      }
    }
    BlankSplit(text);
    BlankPiecesClean(Split(text, ','));
  }

  /** Splitting a text of spaces and commas on `,` leaves only blank pieces. */
  lemma {:induction false} BlankSplit(s: string)
    requires SpacesAndCommas(s)
    ensures forall k :: 0 <= k < |Split(s, ',')| ==> AllSpace(Split(s, ',')[k])
    decreases |s|
  {
    if s != [] {
      assert SpacesAndCommas(s[1..]) by {
        assert forall k :: 0 <= k < |s| - 1 ==> s[1..][k] == s[k + 1];
      }
      BlankSplit(s[1..]);
      var rest := Split(s[1..], ',');
      if s[0] != ',' {
        var u := [s[0]] + rest[0];
        assert forall k :: 0 < k < |u| ==> u[k] == rest[0][k - 1];
        assert AllSpace(u);
        assert forall k :: 0 < k < |rest| ==> rest[1..][k - 1] == rest[k];
      }
    }
  }

  /** Blank pieces all trim to nothing and are dropped. */
  lemma {:induction false} BlankPiecesClean(pieces: seq<string>)
    requires forall k :: 0 <= k < |pieces| ==> AllSpace(pieces[k])
    ensures CleanPieces(pieces) == []
  {
    if pieces != [] {
      TrimShape(pieces[0]);
      assert forall k :: 0 <= k < |pieces| - 1 ==> pieces[1..][k] == pieces[k + 1];
      BlankPiecesClean(pieces[1..]);
    }
  }

  lemma PlaceholderIsClean()
    ensures CleanUrl(ImagePlaceholder)
  {
    var u := ImagePlaceholder;
    assert u[0] == 'h' && u[|u| - 1] == '0';
    assert forall k :: 0 <= k < |u| ==> u[k] != ',';
  }

  /** A clean URL survives the cleanup as it is. */
  lemma CleanPiecesHead(u: string, rest: seq<string>)
    requires CleanUrl(u)
    ensures CleanPieces([u] + rest) == [u] + CleanPieces(rest)
  {
    TrimTrimmed(u);
    assert ([u] + rest)[1..] == rest;
  }

  /** Leading blanks do not survive the cleanup: clean URLs each with a blank in front clean
      back to themselves. */
  lemma {:induction false} CleanSpacedPieces(parts: seq<string>)
    requires AllClean(parts)
    ensures CleanPieces(Prefixed(" ", parts)) == parts
  {
    if parts != [] {
      TrimAfterSpace(' ', parts[0]);
      assert [' '] + parts[0] == " " + parts[0];
      TrimTrimmed(parts[0]);
      assert AllClean(parts[1..]) by {
        assert forall k :: 0 <= k < |parts| - 1 ==> parts[1..][k] == parts[k + 1];
      }
      CleanSpacedPieces(parts[1..]);
      assert Prefixed(" ", parts)[1..] == Prefixed(" ", parts[1..]);
    }
  }

  /** The pieces `split(',')` finds in a `", "`-join of clean URLs. */
  lemma SplitCommaSpaceJoin(images: seq<string>)
    requires |images| >= 1 && AllClean(images)
    ensures Split(Join(", ", images), ',') == [images[0]] + Prefixed(" ", images[1..])
  {
    var pieces := [images[0]] + Prefixed(" ", images[1..]);
    JoinLongerSeparator(",", " ", images);
    assert "," + " " == ", ";
    forall k | 0 <= k < |pieces| ensures ',' !in pieces[k] {
      if k > 0 { assert pieces[k] == " " + images[k]; }
    }
    assert "," == [','];
    SplitJoin(pieces, ',');
  }

  /** The cleanup of those pieces gives the URLs back. */
  lemma CleanSplitPieces(images: seq<string>)
    requires |images| >= 1 && AllClean(images)
    ensures CleanPieces([images[0]] + Prefixed(" ", images[1..])) == images
  {
    assert AllClean(images[1..]) by {
      assert forall k :: 0 <= k < |images| - 1 ==> images[1..][k] == images[k + 1];
    }
    CleanPiecesHead(images[0], Prefixed(" ", images[1..]));
    CleanSpacedPieces(images[1..]);
    assert [images[0]] + images[1..] == images;
  }

  /** The edit form is prefilled with `images.join(', ')`; parsing that text gives the images back. */
  lemma ParseJoinedImages(images: seq<string>)
    requires |images| >= 1 && AllClean(images)
    ensures ParseImages(Join(", ", images)) == images
  {
    var text := Join(", ", images);
    JoinOfTrimmedIsTrimmed(images);
    TrimTrimmed(text);
    SplitCommaSpaceJoin(images);
    CleanSplitPieces(images);
  }

  /** A `", "`-join of clean URLs is nonempty and neither starts nor ends with white space. */
  lemma JoinOfTrimmedIsTrimmed(images: seq<string>)
    requires |images| >= 1 && AllClean(images)
    ensures Join(", ", images) != [] && IsTrimmed(Join(", ", images))
  {
    JoinEnds(", ", images);
    var last := images[|images| - 1];
    assert CleanUrl(images[0]) && CleanUrl(last);
  }

  /** A product without images gets the placeholder when its edit form is saved. */
  lemma ParseNoImages()
    ensures ParseImages(Join(", ", [])) == [ImagePlaceholder]
  {
  }

  // ---------------------------------------------------------------- validation

  predicate PositivePrice(price: Option<real>)
  {
    price.Some? && price.value > 0.0
  }

  predicate PositiveId(id: Option<int>)
  {
    id.Some? && id.value > 0
  }

  /** Every field needed for a request is present and in range. */
  predicate Acceptable(f: FormInput)
  {
    Trim(f.title) != [] && Trim(f.description) != [] && PositivePrice(f.price) && PositiveId(f.categoryId)
  }

  /** The request body an acceptable form produces. */
  function PayloadOf(f: FormInput): Payload
    requires Acceptable(f)
  {
    Payload(Trim(f.title), f.price.value, Trim(f.description), f.categoryId.value, ParseImages(f.imagesText))
  }

  /** `saveEdit` up to the request: empty title or description, then a non-positive or
      missing price, then a non-positive or missing category stop it; otherwise the payload. */
  function ValidateEdit(f: FormInput): (r: Result<Payload, FormError>)
    ensures r.Ok? <==> Acceptable(f)
    ensures r.Ok? ==> r.value == PayloadOf(f)
  {
    var title, description := Trim(f.title), Trim(f.description);
    if title == [] || description == [] then Err(MissingFields)
    else if f.price.None? || f.price.value <= 0.0 then Err(PriceNotPositive)
    else if f.categoryId.None? || f.categoryId.value <= 0 then Err(InvalidCategory)
    else Ok(Payload(title, f.price.value, description, f.categoryId.value, ParseImages(f.imagesText)))
  }

  /** JavaScript's `!x` on a parsed number: `NaN` and `0` are falsy. */
  predicate FalsyPrice(price: Option<real>)
  {
    price.None? || price.value == 0.0
  }

  predicate FalsyId(id: Option<int>)
  {
    id.None? || id.value == 0
  }

  /** `createProduct` up to the request: the first check also treats a price or category of `0`
      or `NaN` as a missing field, so only negative numbers reach the two range checks. */
  function ValidateCreate(f: FormInput): (r: Result<Payload, FormError>)
    ensures r.Ok? <==> Acceptable(f)
    ensures r.Ok? ==> r.value == PayloadOf(f)
  {
    var title, description := Trim(f.title), Trim(f.description);
    if title == [] || FalsyPrice(f.price) || description == [] || FalsyId(f.categoryId) then Err(MissingFields)
    else if f.price.None? || f.price.value <= 0.0 then Err(PriceNotPositive)
    else if f.categoryId.None? || f.categoryId.value <= 0 then Err(InvalidCategory)
    else Ok(Payload(title, f.price.value, description, f.categoryId.value, ParseImages(f.imagesText)))
  }

  /** Which alert the edit form raises: a missing title or description first, then the price,
      then the category. */
  lemma EditErrors(f: FormInput)
    ensures ValidateEdit(f) == Err(MissingFields) <==> Trim(f.title) == [] || Trim(f.description) == []
    ensures ValidateEdit(f) == Err(PriceNotPositive) <==>
      Trim(f.title) != [] && Trim(f.description) != [] && !PositivePrice(f.price)
    ensures ValidateEdit(f) == Err(InvalidCategory) <==>
      Trim(f.title) != [] && Trim(f.description) != [] && PositivePrice(f.price) && !PositiveId(f.categoryId)
  {
  }

  /** Which alert the create form raises: a `NaN` or `0` price or category counts as missing,
      so the range alerts are raised only for negative numbers. */
  lemma CreateErrors(f: FormInput)
    ensures ValidateCreate(f) == Err(MissingFields) <==>
      Trim(f.title) == [] || FalsyPrice(f.price) || Trim(f.description) == [] || FalsyId(f.categoryId)
    ensures ValidateCreate(f) == Err(PriceNotPositive) <==>
      ValidateCreate(f) != Err(MissingFields) && f.price.value < 0.0
    ensures ValidateCreate(f) == Err(InvalidCategory) <==>
      ValidateCreate(f) != Err(MissingFields) && f.price.value > 0.0 && f.categoryId.value < 0
  {
  }

  /** Both forms accept the same inputs with the same payload; where they disagree, creating
      reports a missing field for a price or category the edit form calls out of range. */
  lemma CreateAgreesWithEdit(f: FormInput)
    ensures ValidateCreate(f).Ok? <==> ValidateEdit(f).Ok?
    ensures ValidateCreate(f).Ok? ==> ValidateCreate(f) == ValidateEdit(f)
    ensures ValidateCreate(f) != ValidateEdit(f) ==>
      ValidateCreate(f) == Err(MissingFields) && ValidateEdit(f) != Err(MissingFields)
  {
  }

  // ---------------------------------------------------------------- prefill

  /** `product.category?.id || ''` parsed back: a missing category or id `0` reads as `NaN`. */
  function CategoryField(p: Product): (id: Option<int>)
    ensures id.Some? <==> p.category.Some? && p.category.value.id != 0
    ensures id.Some? ==> id.value == p.category.value.id
  {
    if p.category.Some? && p.category.value.id != 0 then Some(p.category.value.id) else None
  }

  /** The edit form as the edit button fills it for a product. */
  function PrefillForm(p: Product): (form: FormInput)
    ensures form.title == p.title && form.description == p.description
    ensures form.price == Some(p.price) && form.categoryId == CategoryField(p)
    ensures |p.images| >= 1 && AllClean(p.images) ==> ParseImages(form.imagesText) == p.images
  {
    PrefilledImages(p.images);
    FormInput(p.title, Some(p.price), p.description, CategoryField(p), Join(", ", p.images))
  }

  lemma PrefilledImages(images: seq<string>)
    ensures |images| >= 1 && AllClean(images) ==> ParseImages(Join(", ", images)) == images
  {
    if |images| >= 1 && AllClean(images) {
      ParseJoinedImages(images);
    }
  }

  /** Saving an untouched edit form sends the product's own fields back. */
  lemma SaveUntouchedForm(p: Product)
    requires p.title != [] && IsTrimmed(p.title)
    requires p.description != [] && IsTrimmed(p.description)
    requires p.price > 0.0
    requires p.category.Some? && p.category.value.id > 0
    requires |p.images| >= 1 && AllClean(p.images)
    ensures ValidateEdit(PrefillForm(p))
         == Ok(Payload(p.title, p.price, p.description, p.category.value.id, p.images))
  {
    TrimTrimmed(p.title);
    TrimTrimmed(p.description);
    ParseJoinedImages(p.images);
  }
}
