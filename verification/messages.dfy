/**
 * The texts the bot sends to the person it talks to, and the two size
 * refusals `"<label>: <width>:<height>"` that cite the offending dimensions.
 */
module Messages {
  import opened Wrappers
  import Decimal

  const TooLargeLabel: string := "Слишком большое изображение"
  const TooSmallLabel: string := "Слишком маленькое изображение"
  /** Sent at the end of every greeting. */
  const Hint: string := "Вы можете отправить мне любое изображение и я его обработаю.."
  /** Sent when a photo message carries nothing that can be downloaded. */
  const NoPhoto: string := "Не могу найти фото для загрузки"
  /** Sent to the person after an unexpected error was reported to the administrator. */
  const Apology: string := "Произошла непредвиденная ошибка.. Попробуем разобраться"

  /**
   * The f-string `f"{caption}: {width}:{height}"`: it opens with the caption
   * and reads back as exactly the dimensions it was built from.
   */
  function SizeText(caption: string, w: nat, h: nat): (s: string)
    ensures caption + ": " <= s
    ensures ParseSize(caption, s) == Some((w, h))
  {
    var a := Decimal.Format(w);
    var b := Decimal.Format(h);
    ParseSizeOf(caption, a, b);
    Decimal.ValueOfFormat(w);
    Decimal.ValueOfFormat(h);
    caption + ": " + a + ":" + b
  }

  /** The refusal of an over-long photo, naming its dimensions. */
  function TooLargeText(w: nat, h: nat): (s: string)
    ensures TooLargeLabel <= s
    ensures ParseSize(TooLargeLabel, s) == Some((w, h))
  {
    SizeText(TooLargeLabel, w, h)
  }

  /** The refusal of a too-thin photo, naming its dimensions. */
  function TooSmallText(w: nat, h: nat): (s: string)
    ensures TooSmallLabel <= s
    ensures ParseSize(TooSmallLabel, s) == Some((w, h))
  {
    SizeText(TooSmallLabel, w, h)
  }

  /** Position of the first `c` in `s`, if there is one. */
  function IndexOf(s: string, c: char): (r: Option<nat>)
    ensures r.None? <==> c !in s
    ensures r.Some? ==> r.value < |s| && s[r.value] == c
    ensures r.Some? ==> forall k :: 0 <= k < r.value ==> s[k] != c
  {
    if |s| == 0 then None
    else if s[0] == c then Some(0)
    else match IndexOf(s[1..], c)
      case None => None
      case Some(i) => Some(i + 1)
  }

  /** Reads the dimensions back out of a size refusal carrying `caption`. */
  function ParseSize(caption: string, s: string): Option<(nat, nat)>
  {
    var head := caption + ": ";
    if head <= s then ParseDimensions(s[|head|..]) else None
  }

  /** Reads `"<width>:<height>"`, splitting at the first colon. */
  function ParseDimensions(rest: string): Option<(nat, nat)>
  {
    match IndexOf(rest, ':')
    case None => None
    case Some(i) =>
      match (Decimal.Parse(rest[..i]), Decimal.Parse(rest[i + 1..]))
      case (Some(a), Some(b)) => Some((a, b))
      case _ => None
  }

  /** In digits followed by a colon, the first colon is the one after the digits. */
  lemma {:induction false} FirstColonAfterDigits(a: string, b: string)
    requires Decimal.AllDigits(a)
    ensures IndexOf(a + ":" + b, ':') == Some(|a|)
    decreases |a|
  {
    var s := a + ":" + b;
    if |a| > 0 {
      assert s[0] == a[0] && Decimal.IsDigit(a[0]);
      assert s[1..] == a[1..] + ":" + b;
      FirstColonAfterDigits(a[1..], b);
    }
  }

  /** Two numerals separated by a colon read back as those two numbers. */
  lemma {:induction false} ParseDimensionsOf(a: string, b: string)
    requires Decimal.Canonical(a) && Decimal.Canonical(b)
    ensures ParseDimensions(a + ":" + b) == Some((Decimal.Value(a), Decimal.Value(b)))
  {
    var rest := a + ":" + b;
    FirstColonAfterDigits(a, b);
    assert rest[..|a|] == a;
    assert rest[|a| + 1..] == b;
  }

  /** A caption followed by two numerals separated by a colon reads back as those two numbers. */
  lemma {:induction false} ParseSizeOf(caption: string, a: string, b: string)
    requires Decimal.Canonical(a) && Decimal.Canonical(b)
    ensures ParseSize(caption, caption + ": " + a + ":" + b) == Some((Decimal.Value(a), Decimal.Value(b)))
  {
    var head := caption + ": ";
    var rest := a + ":" + b;
    var s := caption + ": " + a + ":" + b;
    assert s == head + rest;
    assert head <= s;
    assert s[|head|..] == rest;
    ParseDimensionsOf(a, b);
  }

  /** Two refusals with the same caption and the same text name the same photo size. */
  lemma SizeTextInjective(caption: string, w: nat, h: nat, w': nat, h': nat)
    requires SizeText(caption, w, h) == SizeText(caption, w', h')
    ensures w == w' && h == h'
  {
  }

  /** Dimensions read back only from the two numerals Python writes for them. */
  lemma ParseDimensionsExactly(rest: string, w: nat, h: nat)
    requires ParseDimensions(rest) == Some((w, h))
    ensures rest == Decimal.Format(w) + ":" + Decimal.Format(h)
  {
    var i := IndexOf(rest, ':').value;
    var a, b := rest[..i], rest[i + 1..];
    assert Decimal.Parse(a) == Some(w) && Decimal.Parse(b) == Some(h);
    Decimal.FormatParse(a);
    Decimal.FormatParse(b);
    assert rest == a + ":" + b;
  }

  /** A text that reads back as `(w, h)` spells both numbers as Python does. */
  lemma ParseSizeSpelled(caption: string, s: string, w: nat, h: nat)
    requires ParseSize(caption, s) == Some((w, h))
    ensures s == caption + ": " + Decimal.Format(w) + ":" + Decimal.Format(h)
  {
    var head := caption + ": ";
    var rest := s[|head|..];
    ParseDimensionsExactly(rest, w, h);
    assert s == head + rest;
  }

  /**
   * A text reads back as `(w, h)` under `caption` exactly when it is the size
   * text for `(w, h)`: no other spelling of the dimensions is accepted.
   */
  lemma ParseSizeExactly(caption: string, s: string, w: nat, h: nat)
    ensures ParseSize(caption, s) == Some((w, h)) <==> s == SizeText(caption, w, h)
  {
    if ParseSize(caption, s) == Some((w, h)) {
      ParseSizeSpelled(caption, s, w, h);
    }
  }

  /** Two strings that start with prefixes differing at one position differ. */
  lemma PrefixesDiffer(a: string, b: string, s: string, t: string, i: nat)
    requires a <= s && b <= t && i < |a| && i < |b| && a[i] != b[i]
    ensures s != t
  {
    assert s[i] == a[i] && t[i] == b[i];
  }

  /** The two refusals can be told apart whatever the dimensions. */
  lemma RefusalsDiffer(w: nat, h: nat, w': nat, h': nat)
    ensures TooLargeText(w, h) != TooSmallText(w', h')
  {
    assert TooLargeLabel[8] == 'б' && TooSmallLabel[8] == 'м';
    PrefixesDiffer(TooLargeLabel, TooSmallLabel, TooLargeText(w, h), TooSmallText(w', h'), 8);
  }
}
