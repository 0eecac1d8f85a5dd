/** create_composite_card: the square check, the resize to the fixed subject
    size, the circular mask and the stencil paste onto the template.

    Images are two-dimensional arrays indexed [row, column], so an image of
    Pillow size (width, height) has Length0 == height and Length1 == width.
    Decoding, encoding and the LANCZOS filter are not modelled: a decoded
    subject carries its size and the pixels the filter produces. */
module Composite {
  import opened Geometry

  /** One sample of an 8-bit channel, as in Pillow's "L" mode. */
  type byte = x: int | 0 <= x < 256

  /** A pixel after convert("RGBA"). */
  datatype Rgba = Rgba(red: byte, green: byte, blue: byte, alpha: byte)

  datatype Option<T> = None | Some(value: T)

  /** An input photo Image.open can identify: its Pillow size, read from the
      header, and, for each pixel of the TargetSize by TargetSize output of
      the LANCZOS resize, the value the filter yields there. The pixels are
      decoded only after the square check, so a non-square photo is judged by
      its header alone. */
  datatype Subject = Subject(width: nat, height: nat, resampled: (nat, nat) -> Rgba)

  /** The decoded reference image: its Pillow size and its pixels. */
  datatype Template = Template(width: nat, height: nat, pixels: (nat, nat) -> Rgba)

  /** What one call reports: a skipped non-square input, a card written with
      the subject pasted at a position, or an exception caught by the call. */
  datatype CardOutcome =
    | Skipped(width: nat, height: nat)
    | Generated(position: Position)
    | Failed

  /** The fill value of the mask inside the ellipse; the canvas starts at 0. */
  const Opaque: byte := 255
  const Clear: byte := 0

  /** A mask with no partial transparency: under it, paste copies or keeps
      each pixel and never blends. */
  ghost predicate IsStencil(mask: array2<byte>)
    reads mask
  {
    forall r, c | 0 <= r < mask.Length0 && 0 <= c < mask.Length1 :: mask[r, c] == Clear || mask[r, c] == Opaque
  }

  /** img.resize(target_size, LANCZOS): a new TargetSize by TargetSize image,
      whatever the size of the subject. */
  method Resize(subject: Subject) returns (img: array2<Rgba>)
    ensures fresh(img)
    ensures img.Length0 == TargetSize && img.Length1 == TargetSize
    ensures forall r, c | 0 <= r < TargetSize && 0 <= c < TargetSize :: img[r, c] == subject.resampled(r, c)
  {
    img := new Rgba[TargetSize, TargetSize]((r: nat, c: nat) => subject.resampled(r, c));
  }

  /** Image.new("L", (cols, rows), 0): a fresh single-channel canvas, all clear. */
  method NewCanvas(rows: nat, cols: nat) returns (canvas: array2<byte>)
    ensures fresh(canvas)
    ensures canvas.Length0 == rows && canvas.Length1 == cols
    ensures forall r, c | 0 <= r < rows && 0 <= c < cols :: canvas[r, c] == Clear
  {
    canvas := new byte[rows, cols]((r, c) => Clear);
  }

  /** ImageDraw.ellipse((0, 0, width, height), fill): every canvas pixel in
      the inscribed ellipse takes the fill value; the others keep theirs.
      Pixels of the ellipse that fall outside the canvas are clipped. */
  method DrawEllipse(canvas: array2<byte>, width: nat, height: nat, fill: byte)
    modifies canvas
    ensures forall r, c | 0 <= r < canvas.Length0 && 0 <= c < canvas.Length1 ::
      canvas[r, c] == if InEllipse(width, height, r, c) then fill else old(canvas[r, c])
  {
    var row := 0;
    while row < canvas.Length0
      invariant 0 <= row <= canvas.Length0
      invariant forall r, c | 0 <= r < canvas.Length0 && 0 <= c < canvas.Length1 ::
        canvas[r, c] == if r < row && InEllipse(width, height, r, c) then fill else old(canvas[r, c])
    {
      var col := 0;
      while col < canvas.Length1
        invariant 0 <= col <= canvas.Length1
        invariant forall r, c | 0 <= r < canvas.Length0 && 0 <= c < canvas.Length1 ::
          canvas[r, c] == if (r < row || (r == row && c < col)) && InEllipse(width, height, r, c)
                          then fill else old(canvas[r, c])
      {
        if InEllipse(width, height, row, col) {
          canvas[row, col] := fill;
        }
        col := col + 1;
      }
      row := row + 1;
    }
  }

  /** The circular mask: a TargetSize by TargetSize canvas, opaque exactly
      inside the ellipse inscribed in its bounds and clear elsewhere. */
  method NewCircularMask() returns (mask: array2<byte>)
    ensures fresh(mask)
    ensures mask.Length0 == TargetSize && mask.Length1 == TargetSize
    ensures forall r, c | 0 <= r < TargetSize && 0 <= c < TargetSize ::
      mask[r, c] == if InEllipse(TargetSize, TargetSize, r, c) then Opaque else Clear
  {
    mask := NewCanvas(TargetSize, TargetSize);
    DrawEllipse(mask, TargetSize, TargetSize, Opaque);
  }

  /** base.paste(img, p, mask=mask) with a stencil mask: each pixel of img
      whose mask value is opaque overwrites the base pixel it lands on; pixels
      that land outside base are clipped; every other base pixel is kept. */
  method Paste(base: array2<Rgba>, img: array2<Rgba>, p: Position, mask: array2<byte>)
    requires img != base
    requires mask.Length0 == img.Length0 && mask.Length1 == img.Length1
    requires IsStencil(mask)
    modifies base
    ensures forall r, c | 0 <= r < base.Length0 && 0 <= c < base.Length1 ::
      base[r, c] == if InBox(p, img.Length0, img.Length1, r, c) && mask[r - p.y, c - p.x] == Opaque
                    then img[r - p.y, c - p.x] else old(base[r, c])
  {
    var i := 0;
    while i < img.Length0
      invariant 0 <= i <= img.Length0
      invariant forall r, c | 0 <= r < base.Length0 && 0 <= c < base.Length1 ::
        base[r, c] == if InBox(p, i, img.Length1, r, c) && mask[r - p.y, c - p.x] == Opaque
                      then img[r - p.y, c - p.x] else old(base[r, c])
    {
      var j := 0;
      while j < img.Length1
        invariant 0 <= j <= img.Length1
        invariant forall r, c | 0 <= r < base.Length0 && 0 <= c < base.Length1 ::
          base[r, c] == if (InBox(p, i, img.Length1, r, c) || (r == p.y + i && p.x <= c < p.x + j))
                           && mask[r - p.y, c - p.x] == Opaque
                        then img[r - p.y, c - p.x] else old(base[r, c])
      {
        var row, col := p.y + i, p.x + j;
        if 0 <= row < base.Length0 && 0 <= col < base.Length1 && mask[i, j] == Opaque {
          base[row, col] := img[i, j];
        }
        j := j + 1;
      }
      i := i + 1;
    }
  }

  /** Image.open(base_image_path).convert("RGBA"): a fresh buffer holding
      the reference image, reopened for every card. */
  method OpenTemplate(t: Template) returns (base: array2<Rgba>)
    ensures fresh(base)
    ensures base.Length0 == t.height && base.Length1 == t.width
    ensures forall r, c | 0 <= r < t.height && 0 <= c < t.width :: base[r, c] == t.pixels(r, c)
  {
    base := new Rgba[t.height, t.width]((r: nat, c: nat) => t.pixels(r, c));
  }

  /** What create_composite_card reports for a reference image and a
      subject when saving the card succeeds or not. None stands for an image
      Image.open cannot identify, or for a square subject whose pixel data
      fails to decode at the convert or the resize (a decoding failure after
      the square check). The template is opened first, so an unreadable
      template fails even for a non-square subject; a non-square subject
      returns before anything is saved. */
  function CardResult(reference: Option<Template>, subject: Option<Subject>, saved: bool): (r: CardOutcome)
    ensures r.Skipped? <==> reference.Some? && subject.Some? && subject.value.width != subject.value.height
    ensures r.Skipped? ==> r == Skipped(subject.value.width, subject.value.height)
    ensures r.Generated? <==> reference.Some? && subject.Some? && subject.value.width == subject.value.height && saved
    ensures r.Generated? ==> r.position == PastePosition(reference.value.width, reference.value.height)
  {
    if reference.None? || subject.None? then Failed
    else if subject.value.width != subject.value.height then Skipped(subject.value.width, subject.value.height)
    else if saved then Generated(PastePosition(reference.value.width, reference.value.height))
    else Failed
  }

  /** create_composite_card: returns its outcome and, when it saves a card,
      the buffer it saves. That buffer has the template's dimensions; it
      shows the resized subject exactly inside the circle inscribed in the
      box at the paste position, and the template everywhere else. */
  method CreateCompositeCard(reference: Option<Template>, subject: Option<Subject>, saved: bool)
    returns (outcome: CardOutcome, written: Option<array2<Rgba>>)
    ensures outcome == CardResult(reference, subject, saved)
    ensures written.Some? <==> outcome.Generated?
    ensures written.Some? ==> fresh(written.value)
    ensures written.Some? ==>
      var t, card, p := reference.value, written.value, outcome.position;
      && card.Length0 == t.height && card.Length1 == t.width
      && (forall r, c | 0 <= r < t.height && 0 <= c < t.width && !InBox(p, TargetSize, TargetSize, r, c) ::
            card[r, c] == t.pixels(r, c))
      && (forall r, c | 0 <= r < t.height && 0 <= c < t.width && InBox(p, TargetSize, TargetSize, r, c) &&
                        !InEllipse(TargetSize, TargetSize, r - p.y, c - p.x) ::
            card[r, c] == t.pixels(r, c))
      && (forall r, c | 0 <= r < t.height && 0 <= c < t.width && InBox(p, TargetSize, TargetSize, r, c) &&
                        InEllipse(TargetSize, TargetSize, r - p.y, c - p.x) ::
            card[r, c] == subject.value.resampled(r - p.y, c - p.x))
  {
    if reference.None? {
      return Failed, None;
    }
    var base := OpenTemplate(reference.value);
    if subject.None? {
      return Failed, None;
    }
    var s := subject.value;
    if s.width != s.height {
      return Skipped(s.width, s.height), None;
    }
    var img := Resize(s);
    var mask := NewCircularMask();
    var p := PastePosition(base.Length1, base.Length0);
    Paste(base, img, p, mask);
    if saved {
      outcome, written := Generated(p), Some(base);
    } else {
      outcome, written := Failed, None;
    }
  }

  /** The configuration the source is written for: on an 850 by 850
      template the card shows the subject's centre pixel at the circle's
      centre, and the corners of the pasted box and everything outside it
      keep the template. */
  method Card850(t: Template, s: Subject) returns (card: array2<Rgba>)
    requires t.width == 850 && t.height == 850 && s.width == s.height
    ensures card.Length0 == 850 && card.Length1 == 850
    ensures card[468 + 170, 43 + 170] == s.resampled(170, 170)
    ensures card[468, 43] == t.pixels(468, 43) && card[807, 382] == t.pixels(807, 382)
    ensures forall r, c | 0 <= r < 850 && 0 <= c < 850 && !(468 <= r < 808 && 43 <= c < 383) ::
      card[r, c] == t.pixels(r, c)
  {
    var outcome, written := CreateCompositeCard(Some(t), Some(s), true);
    Template850();
    MaskCornersAndCentre();
    card := written.value;
  }
}
