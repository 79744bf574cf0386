/**
 * PrefixId<T>: a GUID shown as "<prefix>_<base32 of its 16 bytes>", where the
 * prefix is what the concrete id type T answers for its Prefix property.
 */
module PrefixIds {
  import opened Wrappers
  import opened CSharp
  import Base32
  import Base32Properties
  import BitStream
  import Text

  /** The id's text is the prefix, this separator, and the Base32 payload. */
  const Separator: char := '_'

  /** A GUID as the 16 bytes of Guid.ToByteArray(); `new Guid(bytes)` reads them back. */
  type Guid = b: seq<byte> | |b| == 16 witness seq(16, _ => 0)

  /** Guid.Empty. */
  const EmptyGuid: Guid := seq(16, _ => 0)

  /**
   * The concrete id type T: its name, which `obj is PrefixId<T>` tests, and what
   * its Prefix property returns (`None` is `null`).
   */
  datatype Kind = Kind(name: string, prefix: Option<string>)

  /** The exceptions the identifier throws, with the parameter name they carry. */
  datatype Error =
    | ArgumentException(paramName: string)
    | ArgumentNullException(paramName: string)
    | NullReferenceException

  /** String interpolation writes a null string as nothing. */
  function Interpolated(s: Option<string>): string
  {
    if s.Some? then s.value else ""
  }

  /** new Guid(byte[]): exactly 16 bytes, otherwise an ArgumentException naming `b`. */
  function NewGuid(bytes: seq<byte>): (r: Result<Guid, Error>)
    ensures r.Success? <==> |bytes| == 16
    ensures r.Success? ==> r.value == bytes
    ensures r.Failure? ==> r.error == ArgumentException("b")
  {
    if |bytes| == 16 then Success(bytes) else Failure(ArgumentException("b"))
  }

  /** The canonical text of an id: prefix, separator, unpadded Base32 of the bytes. */
  function Format(prefix: string, g: Guid): string
  {
    prefix + [Separator] + Base32.EncodeSpec(g, false)
  }

  /**
   * What TryParse accepts, and the GUID it reads: the text is neither null nor
   * whitespace, splits into exactly two parts at '_', the second decodes to
   * 16 bytes, and T's prefix is usable. The first part is never looked at.
   */
  function TryParseGuid(kind: Kind, value: Option<string>): Option<Guid>
  {
    if Text.IsNullOrWhiteSpace(value) then None
    else
      var parts := Text.Split(value.value, Separator);
      if |parts| != 2 then None
      else
        match Base32.DecodeSpec(parts[1])
        case Failure(_) => None
        case Success(bytes) =>
          if |bytes| != 16 || Text.IsNullOrWhiteSpace(kind.prefix) then None else Some(bytes)
  }

  class PrefixId {
    /** T itself: `obj is PrefixId<T>` compares this. */
    const kind: Kind
    /** `_prefix`; null (`None`) until CreatePrefixId stores T's prefix. */
    var prefix: Option<string>
    /** `_decodedGuid`. */
    var decodedGuid: Guid
    /** `_formattedValue`, the cached text. */
    var formattedValue: Option<string>

    /** `new T()`: every field at its default: a null prefix, Guid.Empty, no cached text. */
    constructor (kind: Kind)
      ensures this.kind == kind && prefix == None && decodedGuid == EmptyGuid && formattedValue == None
      ensures !Valid()
    {
      this.kind := kind;
      prefix := None;
      decodedGuid := EmptyGuid;
      formattedValue := None;
    }

    /**
     * The state that CreatePrefixId, and so Create, TryParse and Parse, leave
     * behind: the prefix is T's, and usable. A bare `new T()` is not Valid.
     */
    ghost predicate Valid()
      reads this
    {
      !Text.IsNullOrWhiteSpace(kind.prefix) && prefix == kind.prefix
    }

    /** ToGuid(): the GUID the id was created with or parsed from. */
    function ToGuid(): (g: Guid)
      reads this
      ensures g == decodedGuid
    {
      decodedGuid
    }

    /**
     * HasPrefix: `_prefix.Equals(p)`, an ordinal, case-sensitive comparison in
     * which a null argument is never equal; a NullReferenceException while
     * `_prefix` is still null. On a Valid id it compares with T's prefix.
     */
    function HasPrefix(p: Option<string>): (r: Result<bool, Error>)
      reads this
      ensures r.Failure? <==> prefix.None?
      ensures r.Failure? ==> r.error == NullReferenceException
      ensures r.Success? ==> (r.value <==> p.Some? && p.value == prefix.value)
      ensures Valid() ==> r == Success(p == kind.prefix)
    {
      if prefix.None? then Failure(NullReferenceException)
      else Success(p.Some? && prefix.value == p.value)
    }

    /** HashCode.Combine(_prefix, _decodedGuid), with the combining function a parameter. */
    function GetHashCode(combine: (Option<string>, Guid) -> int): int
      reads this
    {
      combine(prefix, decodedGuid)
    }

    /**
     * Equals(PrefixId<T>): the same object, or equal hash codes. Ids with the
     * same prefix and GUID are always equal; null never is.
     */
    function Equals(other: PrefixId?, combine: (Option<string>, Guid) -> int): (r: bool)
      reads this, other
      ensures other == null ==> !r
      ensures other != null && other.prefix == prefix && other.decodedGuid == decodedGuid ==> r
      ensures other == this ==> r
    {
      this == other || (other != null && GetHashCode(combine) == other.GetHashCode(combine))
    }

    /** Equals(object): another id of the same type T (by name), and Equals on it. */
    function EqualsObject(obj: PrefixId?, combine: (Option<string>, Guid) -> int): (r: bool)
      reads this, obj
      ensures r ==> obj != null && obj.kind.name == kind.name
      ensures obj != null && obj.kind.name == kind.name ==> (r <==> Equals(obj, combine))
    {
      obj != null && obj.kind.name == kind.name && Equals(obj, combine)
    }

    /**
     * The Value property: the cached text if there is one; otherwise the
     * canonical text, which is then cached. Nothing else changes, so a second
     * call gives the same text.
     */
    method Value() returns (v: string)
      modifies this
      ensures old(formattedValue).Some? ==> v == old(formattedValue).value
      ensures old(formattedValue).None? ==> v == Format(Interpolated(prefix), decodedGuid)
      ensures formattedValue == Some(v)
      ensures prefix == old(prefix) && decodedGuid == old(decodedGuid)
    {
      if formattedValue.None? {
        var encoded := Base32.Encode(decodedGuid, false);
        formattedValue := Some(Interpolated(prefix) + [Separator] + encoded.value);
      }
      v := formattedValue.value;
    }
  }

  /**
   * CreatePrefixId: a fresh T holding T's prefix, the GUID and the given cached
   * text; an ArgumentException naming "Prefix" when T's prefix is null or whitespace.
   */
  method CreatePrefixId(kind: Kind, idGuid: Guid, formattedValue: Option<string>)
    returns (r: Result<PrefixId, Error>)
    ensures r.Failure? <==> Text.IsNullOrWhiteSpace(kind.prefix)
    ensures r.Failure? ==> r.error == ArgumentException("Prefix")
    ensures r.Success? ==> fresh(r.value) && r.value.kind == kind && r.value.Valid()
    ensures r.Success? ==> r.value.prefix == kind.prefix && r.value.decodedGuid == idGuid
    ensures r.Success? ==> r.value.formattedValue == formattedValue
  {
    var id := new PrefixId(kind);
    if Text.IsNullOrWhiteSpace(kind.prefix) {
      return Failure(ArgumentException("Prefix"));
    }
    id.prefix := kind.prefix;
    id.decodedGuid := idGuid;
    id.formattedValue := formattedValue;
    return Success(id);
  }

  /** Create(Guid): an id for the GUID, its text not yet computed. */
  method Create(kind: Kind, idGuid: Guid) returns (r: Result<PrefixId, Error>)
    ensures r.Failure? <==> Text.IsNullOrWhiteSpace(kind.prefix)
    ensures r.Failure? ==> r.error == ArgumentException("Prefix")
    ensures r.Success? ==> fresh(r.value) && r.value.kind == kind && r.value.Valid()
    ensures r.Success? ==> r.value.ToGuid() == idGuid && r.value.HasPrefix(kind.prefix) == Success(true)
    ensures r.Success? ==> r.value.formattedValue == None
  {
    r := CreatePrefixId(kind, idGuid, None);
  }

  /**
   * TryParse: true with a fresh id exactly when TryParseGuid accepts the text;
   * the id carries the decoded GUID and keeps the text it was parsed from as
   * its Value. Every failure, thrown or not, gives false and null.
   */
  method TryParse(kind: Kind, value: Option<string>) returns (ok: bool, id: PrefixId?)
    ensures ok <==> TryParseGuid(kind, value).Some?
    ensures !ok ==> id == null
    ensures ok ==> id != null && fresh(id) && id.kind == kind && id.Valid()
    ensures ok ==> id.ToGuid() == TryParseGuid(kind, value).value && id.formattedValue == value
  {
    id := null;
    if Text.IsNullOrWhiteSpace(value) {
      return false, null;
    }
    var parts := Text.Split(value.value, Separator);
    if |parts| != 2 {
      return false, null;
    }
    var encodedGuid := parts[1];
    var decoded := Base32.Decode(encodedGuid);
    if decoded.Failure? {
      return false, null;
    }
    var guid := NewGuid(decoded.value);
    if guid.Failure? {
      return false, null;
    }
    var created := CreatePrefixId(kind, guid.value, value);
    if created.Failure? {
      return false, null;
    }
    return true, created.value;
  }

  /**
   * Parse: the id TryParse finds; an ArgumentNullException naming "value" for
   * null or whitespace text, and one naming "id" for any other rejected text.
   */
  method Parse(kind: Kind, value: Option<string>) returns (r: Result<PrefixId, Error>)
    ensures Text.IsNullOrWhiteSpace(value) ==> r == Failure(ArgumentNullException("value"))
    ensures !Text.IsNullOrWhiteSpace(value) && TryParseGuid(kind, value).None? ==>
      r == Failure(ArgumentNullException("id"))
    ensures r.Success? <==> TryParseGuid(kind, value).Some?
    ensures r.Success? ==> fresh(r.value) && r.value.kind == kind && r.value.Valid()
    ensures r.Success? ==> r.value.ToGuid() == TryParseGuid(kind, value).value
    ensures r.Success? ==> r.value.formattedValue == value
  {
    if Text.IsNullOrWhiteSpace(value) {
      return Failure(ArgumentNullException("value"));
    }
    var ok, id := TryParse(kind, value);
    if !ok {
      return Failure(ArgumentNullException("id"));
    }
    return Success(id);
  }

  // ---------------------------------------------------------------------

  /** The payload of a GUID: 26 symbols of the alphabet, none of them '_'. */
  lemma PayloadOfGuid(g: Guid)
    ensures |Base32.EncodeSpec(g, false)| == 26
    ensures Base32.Legal(Base32.EncodeSpec(g, false))
    ensures Separator !in Base32.EncodeSpec(g, false)
  {
    var e := Base32.EncodeSpec(g, false);
    Base32Properties.EncodeLength(g);
    Base32Properties.EncodeBitsAlphabet(BitStream.BytesToBits(g));
    assert forall k :: 0 <= k < |e| ==> e[k] in Base32.CharMap;
    assert Separator !in Base32.CharMap;
  }

  /** The canonical text is the prefix plus 27 characters; 31 for the prefix "test". */
  lemma FormatLength(prefix: string, g: Guid)
    ensures |Format(prefix, g)| == |prefix| + 27
    ensures prefix == "test" ==> |Format(prefix, g)| == 31
  {
    PayloadOfGuid(g);
  }

  /**
   * Parsing the canonical text of a GUID gives the GUID back, provided T's
   * prefix is usable and has no '_' of its own.
   */
  lemma ParseFormat(kind: Kind, g: Guid)
    requires !Text.IsNullOrWhiteSpace(kind.prefix) && Separator !in kind.prefix.value
    ensures TryParseGuid(kind, Some(Format(kind.prefix.value, g))) == Some(g)
  {
    var p, e := kind.prefix.value, Base32.EncodeSpec(g, false);
    PayloadOfGuid(g);
    PayloadAccepted(kind, p, e);
    Base32Properties.RoundTrip(g, false);
  }

  /**
   * A prefix containing '_' makes the canonical text split into three or more
   * parts, so TryParse rejects the text that Value produced.
   */
  lemma PrefixWithSeparator(kind: Kind, g: Guid)
    requires kind.prefix.Some? && Separator in kind.prefix.value
    ensures TryParseGuid(kind, Some(Format(kind.prefix.value, g))) == None
  {
    var p, e := kind.prefix.value, Base32.EncodeSpec(g, false);
    var s := Format(p, g);
    PayloadOfGuid(g);
    assert s[|p|] == Separator;
    Text.SplitCount(s, Separator);
    assert multiset(s) == multiset(p) + multiset{Separator} + multiset(e) by {
      assert s == p + [Separator] + e;
    }
  }

  /**
   * For a text "p_e" with no other '_' and a payload of symbols, TryParse
   * accepts exactly when the payload has 26 or 27 symbols (T's prefix being
   * usable); p may differ from T's prefix.
   */
  lemma PayloadAccepted(kind: Kind, p: string, e: string)
    requires !Text.IsNullOrWhiteSpace(kind.prefix) && Separator !in p && Separator !in e
    requires Base32.Legal(e)
    ensures TryParseGuid(kind, Some(p + [Separator] + e)).Some? <==> (|e| == 26 || |e| == 27)
    ensures Base32.DecodeSpec(e).Success?
    ensures TryParseGuid(kind, Some(p + [Separator] + e)).Some? ==>
      TryParseGuid(kind, Some(p + [Separator] + e)).value == Base32.DecodeSpec(e).value
  {
    var s := p + [Separator] + e;
    assert !Text.AllWhiteSpace(s) by {
      assert s[|p|] == Separator;
    }
    Text.SplitOnce(p, e, Separator);
    Base32Properties.CleanSymbols(e);
    Base32Properties.DecodeLength(e);
  }

  /**
   * The canonical text of g, or one that differs from it only in ways Decode
   * ignores: the payload padded with '=', upper-cased, or both.
   */
  function VariantText(prefix: string, g: Guid, padded: bool, upper: bool): string
  {
    var e := Base32.EncodeSpec(g, padded);
    prefix + [Separator] + (if upper then Text.ToUpperAscii(e) else e)
  }

  /** The payload of a variant text: no `_` in it, and it decodes to g. */
  lemma {:induction false} VariantPayload(g: Guid, padded: bool, upper: bool)
    ensures var e := Base32.EncodeSpec(g, padded);
            var t := if upper then Text.ToUpperAscii(e) else e;
            Separator !in t && Base32.DecodeSpec(t) == Success(g)
  {
    var e, u := Base32.EncodeSpec(g, padded), Base32.EncodeSpec(g, false);
    PayloadOfGuid(g);
    Base32Properties.EncodePadding(g);
    forall k | 0 <= k < |e|
      ensures e[k] != Separator && (upper ==> Text.ToUpperAscii(e)[k] != Separator)
    {
      if k < |u| {
        assert e[k] == u[k];
      }
      if upper {
        Text.ToUpperAsciiSameUpToCase(e);
      }
    }
    Base32Properties.RoundTrip(g, padded);
    if upper {
      Base32Properties.DecodeUpperCase(e);
    }
  }

  /**
   * Parsing a padded or upper-cased form of the canonical text gives the same
   * GUID as the canonical text itself, so the ids are equal.
   */
  lemma ParseVariant(kind: Kind, g: Guid, padded: bool, upper: bool)
    requires !Text.IsNullOrWhiteSpace(kind.prefix) && Separator !in kind.prefix.value
    ensures TryParseGuid(kind, Some(VariantText(kind.prefix.value, g, padded, upper))) == Some(g)
  {
    var p, e := kind.prefix.value, Base32.EncodeSpec(g, padded);
    var t := if upper then Text.ToUpperAscii(e) else e;
    var s := p + [Separator] + t;
    assert !Text.AllWhiteSpace(s) by {
      assert s[|p|] == Separator;
    }
    VariantPayload(g, padded, upper);
    Text.SplitOnce(p, t, Separator);
  }

  /** The rejected texts of the identifier's tests: null, "" and "test". */
  lemma RejectedInputs(kind: Kind, s: string)
    requires s == "" || s == "test"
    ensures TryParseGuid(kind, None) == None
    ensures TryParseGuid(kind, Some(s)) == None
  {
    if s == "test" {
      Text.SplitNoSeparator(s, Separator);
    }
  }

  /** "test_notvalidtestid" is rejected: its 14 symbols decode to 8 bytes, not 16. */
  lemma RejectedShortPayload(kind: Kind, p: string, e: string)
    requires p == "test" && e == "notvalidtestid"
    ensures p + [Separator] + e == "test_notvalidtestid"
    ensures TryParseGuid(kind, Some(p + [Separator] + e)) == None
  {
    if !Text.IsNullOrWhiteSpace(kind.prefix) {
      assert Base32.Legal(e) by {
        assert forall k :: 0 <= k < |e| ==> Base32.IsSymbol(e[k]);
      }
      PayloadAccepted(kind, p, e);
    }
  }

  /** HasPrefix is case-sensitive: the upper-cased prefix of a prefix with a lower-case letter does not match. */
  lemma HasPrefixCaseSensitive(id: PrefixId, i: nat)
    requires id.prefix.Some? && i < |id.prefix.value| && 'a' <= id.prefix.value[i] <= 'z'
    ensures id.HasPrefix(id.prefix) == Success(true)
    ensures id.HasPrefix(Some(Text.ToUpperAscii(id.prefix.value))) == Success(false)
  {
    assert Text.ToUpperAscii(id.prefix.value)[i] != id.prefix.value[i];
  }

  /** Ids with the same prefix and GUID have the same hash code, whatever the combining function. */
  lemma HashOfEqualFields(a: PrefixId, b: PrefixId, combine: (Option<string>, Guid) -> int)
    requires a.prefix == b.prefix && a.ToGuid() == b.ToGuid()
    ensures a.GetHashCode(combine) == b.GetHashCode(combine)
  {
  }

  // ---------------------------------------------------------------------
  // The identifier's operations composed

  /** Create(g) twice gives two distinct objects of T that are Equals, typed and as objects, whatever the hash. */
  method CreateTwice(kind: Kind, g: Guid, combine: (Option<string>, Guid) -> int)
    returns (a: PrefixId, b: PrefixId)
    requires !Text.IsNullOrWhiteSpace(kind.prefix)
    ensures a != b && a.kind == kind && b.kind == kind
    ensures a.Equals(b, combine) && b.Equals(a, combine)
    ensures a.EqualsObject(b, combine) && b.EqualsObject(a, combine)
    ensures a.ToGuid() == g && b.ToGuid() == g
  {
    var r1 := Create(kind, g);
    var r2 := Create(kind, g);
    a, b := r1.value, r2.value;
  }

  /**
   * Parse(Create(g).Value) succeeds, reads g back and is Equals to the created id,
   * typed and as an object;
   * the parsed id keeps the same text as its Value.
   */
  method ParseValue(kind: Kind, g: Guid, combine: (Option<string>, Guid) -> int)
    returns (created: PrefixId, text: string, parsed: PrefixId)
    requires !Text.IsNullOrWhiteSpace(kind.prefix) && Separator !in kind.prefix.value
    ensures text == Format(kind.prefix.value, g) && |text| == |kind.prefix.value| + 27
    ensures parsed.ToGuid() == g && parsed.formattedValue == Some(text)
    ensures created.kind == kind && parsed.kind == kind
    ensures parsed.Equals(created, combine) && created.Equals(parsed, combine)
    ensures parsed.EqualsObject(created, combine) && created.EqualsObject(parsed, combine)
  {
    var r := Create(kind, g);
    created := r.value;
    text := created.Value();
    FormatLength(kind.prefix.value, g);
    ParseFormat(kind, g);
    var p := Parse(kind, Some(text));
    parsed := p.value;
  }

  /**
   * Parse of a padded or upper-cased form of Create(g)'s text reads g back and
   * is Equals to the created id, typed and as an object, while keeping the text
   * it was given.
   */
  method ParseVariantEqualsCreate(kind: Kind, g: Guid, combine: (Option<string>, Guid) -> int,
                                  padded: bool, upper: bool)
    returns (created: PrefixId, parsed: PrefixId)
    requires !Text.IsNullOrWhiteSpace(kind.prefix) && Separator !in kind.prefix.value
    ensures parsed.ToGuid() == g
    ensures parsed.formattedValue == Some(VariantText(kind.prefix.value, g, padded, upper))
    ensures created.kind == kind && parsed.kind == kind
    ensures parsed.Equals(created, combine) && created.Equals(parsed, combine)
    ensures parsed.EqualsObject(created, combine) && created.EqualsObject(parsed, combine)
  {
    var r := Create(kind, g);
    created := r.value;
    ParseVariant(kind, g, padded, upper);
    var p := Parse(kind, Some(VariantText(kind.prefix.value, g, padded, upper)));
    parsed := p.value;
  }
}
