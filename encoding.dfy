/**
 Step 1 of `_txt_to_pdf` (dmzj_txt2pdf.py): turning the raw bytes of a
 fragment into text. The codecs themselves and the `chardet` guesser are
 outside the model; they are given as functions, and what is modelled is the
 order in which they are tried and which result is kept.
 */
module Encoding {
  import opened Wrappers

  newtype byte = x: int | 0 <= x < 256

  type Bytes = seq<byte>

  /** A codec name as Python's `bytes.decode` accepts it. */
  type CodecName = string

  /** The default `enc_preforder` of `_txt_to_pdf`. */
  const PreferenceOrder: seq<CodecName> := ["utf-8", "gbk", "big5", "utf-16"]

  /** The behaviour of Python's codecs on one buffer. */
  datatype Codecs = Codecs(
    /** `raw.decode(enc)`: `None` when it raises `UnicodeDecodeError`. */
    strict: (CodecName, Bytes) -> Option<string>,
    /**
     `raw.decode(enc, errors="replace")`: `None` when it raises
     `UnicodeDecodeError`. An unknown codec name raises `LookupError`
     instead, which `_txt_to_pdf` does not catch; that outcome has no value here.
     */
    replacing: (CodecName, Bytes) -> Option<string>,
    /** `raw.decode("utf-8", errors="replace")`, which cannot fail. */
    utf8Replacing: Bytes -> string)

  /** Whether `import chardet` succeeds, and if so what `chardet.detect(raw)["encoding"]` is. */
  datatype Chardet = Missing | Installed(detect: Bytes -> Option<CodecName>)

  /** Which branch produced the text. */
  datatype Decoding =
    | Probed(index: nat)       // the codec `enc_preforder[index]` decoded the whole buffer
    | Guessed(codec: CodecName) // the `chardet` guess, decoded with replacement characters
    | Lossy                    // UTF-8 with replacement characters

  /** Position of the first preferred codec that decodes all of `raw`, if any. */
  function FirstDecodable(prefs: seq<CodecName>, raw: Bytes, c: Codecs): (r: Option<nat>)
    ensures r.Some? ==> r.value < |prefs| && c.strict(prefs[r.value], raw).Some?
    ensures r.Some? ==> forall j :: 0 <= j < r.value ==> c.strict(prefs[j], raw).None?
    ensures r.None? <==> forall j :: 0 <= j < |prefs| ==> c.strict(prefs[j], raw).None?
  {
    if prefs == [] then None
    else if c.strict(prefs[0], raw).Some? then Some(0)
    else match FirstDecodable(prefs[1..], raw, c)
      case None =>
        assert forall j :: 1 <= j < |prefs| ==> prefs[j] == prefs[1..][j - 1];
        None
      case Some(i) =>
        assert forall j :: 1 <= j <= i ==> prefs[j] == prefs[1..][j - 1];
        Some(i + 1)
  }

  /** `chardet.detect(raw)["encoding"] or "utf-8"`: no guess, or an empty one, means UTF-8. */
  function GuessOrUtf8(guess: Option<CodecName>): (enc: CodecName)
    ensures enc != ""
    ensures guess.Some? && guess.value != "" ==> enc == guess.value
    ensures guess.None? || guess.value == "" ==> enc == "utf-8"
  {
    match guess
    case Some(name) => if name == "" then "utf-8" else name
    case None => "utf-8"
  }

  /**
   The last resort once every preferred codec has failed: the `chardet` guess
   decoded with replacement characters, or UTF-8 with replacement characters
   when `chardet` cannot be imported (`ImportError`) or the guessed decode
   raises `UnicodeDecodeError`.
   */
  function Fallback(raw: Bytes, c: Codecs, chardet: Chardet): (r: (string, Decoding))
    ensures !r.1.Probed?
    ensures r.1.Guessed? <==> chardet.Installed? && c.replacing(GuessOrUtf8(chardet.detect(raw)), raw).Some?
    ensures r.1.Guessed? ==> r.1.codec == GuessOrUtf8(chardet.detect(raw))
                             && c.replacing(r.1.codec, raw) == Some(r.0)
    ensures r.1.Lossy? ==> r.0 == c.utf8Replacing(raw)
  {
    match chardet
    case Missing => (c.utf8Replacing(raw), Lossy)
    case Installed(detect) =>
      var enc := GuessOrUtf8(detect(raw));
      match c.replacing(enc, raw)
      case Some(text) => (text, Guessed(enc))
      case None => (c.utf8Replacing(raw), Lossy)
  }

  /** The text `_txt_to_pdf` decodes from `raw`, and how it got it. */
  function Resolve(raw: Bytes, prefs: seq<CodecName>, c: Codecs, chardet: Chardet): (r: (string, Decoding))
    ensures r.1.Probed? <==> exists i :: 0 <= i < |prefs| && c.strict(prefs[i], raw).Some?
    ensures r.1.Probed? ==> r.1.index < |prefs| && c.strict(prefs[r.1.index], raw) == Some(r.0)
    ensures r.1.Probed? ==> forall j :: 0 <= j < r.1.index ==> c.strict(prefs[j], raw).None?
    ensures !r.1.Probed? ==> r == Fallback(raw, c, chardet)
  {
    match FirstDecodable(prefs, raw, c)
    case Some(i) => (c.strict(prefs[i], raw).value, Probed(i))
    case None => Fallback(raw, c, chardet)
  }

  /**
   Lines 64-78 of `_txt_to_pdf`: try the preferred codecs in order and keep the
   first whole-buffer decode; only when all of them fail, fall back. Every
   outcome this model has yields text; the `LookupError` of a guessed codec
   Python does not know is not one of them.
   */
  method DecodeFragment(raw: Bytes, prefs: seq<CodecName>, c: Codecs, chardet: Chardet)
    returns (text: string, how: Decoding)
    ensures how.Probed? <==> exists i :: 0 <= i < |prefs| && c.strict(prefs[i], raw).Some?
    ensures how.Probed? ==> how.index < |prefs| && c.strict(prefs[how.index], raw) == Some(text)
    ensures how.Probed? ==> forall j :: 0 <= j < how.index ==> c.strict(prefs[j], raw).None?
    ensures !how.Probed? ==> (text, how) == Fallback(raw, c, chardet)
    ensures (text, how) == Resolve(raw, prefs, c, chardet)
  {
    var found := false;
    var i := 0;
    while i < |prefs|
      invariant 0 <= i <= |prefs|
      invariant !found
      invariant forall j :: 0 <= j < i ==> c.strict(prefs[j], raw).None?
    {
      var attempt := c.strict(prefs[i], raw);
      if attempt.Some? {
        text, how := attempt.value, Probed(i);
        found := true;
        break;
      }
      i := i + 1;
    }
    if !found {
      match chardet {
        case Missing =>
          text, how := c.utf8Replacing(raw), Lossy;
        case Installed(detect) =>
          var enc := GuessOrUtf8(detect(raw));
          var guessed := c.replacing(enc, raw);
          if guessed.Some? {
            text, how := guessed.value, Guessed(enc);
          } else {
            text, how := c.utf8Replacing(raw), Lossy;
          }
      }
    }
  }
}
