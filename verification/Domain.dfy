/** The `User` entity and its identifier. */
module Domain {
  import opened Wrappers
  import opened Text

  /** Exclusive upper bound of the 128-bit `Guid` values. */
  const GuidBound: int := 0x1_0000_0000_0000_0000_0000_0000_0000_0000

  /** A `Guid`, identified with the 128-bit number whose 32 hexadecimal digits
      are its standard text form with the hyphens removed. */
  type Guid = x: int | 0 <= x < GuidBound

  /** `Guid.Empty`. */
  const EmptyGuid: Guid := 0

  /** A lower-case hexadecimal digit. */
  predicate IsHexDigit(c: char) {
    ('0' <= c <= '9') || ('a' <= c <= 'f')
  }

  /** The lower-case hexadecimal digit for `d`. */
  function HexDigit(d: nat): (c: char)
    requires d < 16
    ensures IsHexDigit(c) && DigitValue(c) == d
  {
    if d < 10 then (48 + d) as char else (87 + d) as char
  }

  /** The value of a hexadecimal digit. */
  function DigitValue(c: char): nat {
    if '0' <= c <= '9' then c as int - 48
    else if 'a' <= c <= 'f' then c as int - 87
    else 0
  }

  /** `16^w`. */
  function Pow16(w: nat): (p: nat)
    ensures 0 < p
  {
    if w == 0 then 1 else 16 * Pow16(w - 1)
  }

  /** The number a string of hexadecimal digits denotes, most significant first. */
  function HexValue(s: string): nat {
    if s == [] then 0 else 16 * HexValue(s[..|s| - 1]) + DigitValue(s[|s| - 1])
  }

  /** The low `width` hexadecimal digits of `n`, most significant first: `width`
      lower-case digits, which read back as `n` when `n` has at most `width` digits. */
  function Hex(n: nat, width: nat): (r: string)
    ensures |r| == width
    ensures forall i :: 0 <= i < |r| ==> IsHexDigit(r[i])
    ensures n < Pow16(width) ==> HexValue(r) == n
  {
    if width == 0 then "" else
      var r := Hex(n / 16, width - 1) + [HexDigit(n % 16)];
      assert r[..|r| - 1] == Hex(n / 16, width - 1);
      r
  }

  /** The 32 digits of a "D"-format text, with the four hyphens removed. */
  function Digits(t: string): string
    requires |t| == 36
  {
    t[..8] + t[9..13] + t[14..18] + t[19..23] + t[24..]
  }

  /** `Guid.ToString()`: the "D" format, 8-4-4-4-12 lower-case hex digits. */
  function GuidText(id: Guid): (r: string)
    ensures |r| == 36
    ensures r[8] == '-' && r[13] == '-' && r[18] == '-' && r[23] == '-'
    ensures forall i :: 0 <= i < 36 && i != 8 && i != 13 && i != 18 && i != 23 ==> IsHexDigit(r[i])
    ensures HexValue(Digits(r)) == id
  {
    var h := Hex(id, 32);
    HyphenatedDigits(h);
    HyphenatedHex(h);
    Pow16Of32();
    Hyphenated(h)
  }

  /** 32 digits in groups of 8, 4, 4, 4 and 12, joined by hyphens. */
  function Hyphenated(h: string): (r: string)
    requires |h| == 32
    ensures |r| == 36 && r[8] == '-' && r[13] == '-' && r[18] == '-' && r[23] == '-'
  {
    h[..8] + "-" + h[8..12] + "-" + h[12..16] + "-" + h[16..20] + "-" + h[20..]
  }

  /** Removing the hyphens gives the digits back. */
  lemma HyphenatedDigits(h: string)
    requires |h| == 32
    ensures Digits(Hyphenated(h)) == h
  {
    var r := Hyphenated(h);
    assert r[..8] == h[..8];
    assert r[9..13] == h[8..12];
    assert r[14..18] == h[12..16];
    assert r[19..23] == h[16..20];
    assert r[24..] == h[20..];
    assert h == h[..8] + h[8..12] + h[12..16] + h[16..20] + h[20..];
  }

  /** Every position but the hyphens holds one of the digits. */
  lemma HyphenatedHex(h: string)
    requires |h| == 32 && forall k :: 0 <= k < 32 ==> IsHexDigit(h[k])
    ensures forall i :: 0 <= i < 36 && i != 8 && i != 13 && i != 18 && i != 23 ==> IsHexDigit(Hyphenated(h)[i])
  {
    var r := Hyphenated(h);
    forall i | 0 <= i < 36 && i != 8 && i != 13 && i != 18 && i != 23
      ensures IsHexDigit(r[i])
    {
      if i < 8 {
        assert r[i] == h[i];
      } else if i < 13 {
        assert r[i] == h[i - 1];
      } else if i < 18 {
        assert r[i] == h[i - 2];
      } else if i < 23 {
        assert r[i] == h[i - 3];
      } else {
        assert r[i] == h[i - 4];
      }
    }
  }

  /** Thirty-two hexadecimal digits hold exactly the `Guid` range. */
  lemma Pow16Of32()
    ensures Pow16(32) == GuidBound
  {
    assert Pow16(8) == 0x1_0000_0000;
    assert Pow16(16) == 0x1_0000_0000_0000_0000;
    assert Pow16(24) == 0x1_0000_0000_0000_0000_0000_0000;
  }

  /** Different ids have different texts, so a message naming one names only it. */
  lemma GuidTextInjective(a: Guid, b: Guid)
    ensures GuidText(a) == GuidText(b) ==> a == b
  {
  }

  /** A `DateTime`, as a count of ticks. */
  type DateTime = int

  /** One row of the `Users` table. Reference-typed members may be null (`None`).
      `CreatedDate` is the column the first iteration called `CreatedAt`; the
      audit columns `CreatedBy`, `LastModifiedDate` and `LastModifiedBy` belong to
      the later iteration and stay null in the earlier one. */
  datatype User = User(
    Id: Guid,
    FirstName: Option<string>,
    LastName: Option<string>,
    Email: Option<string>,
    PasswordHash: Option<string>,
    CreatedDate: DateTime,
    CreatedBy: Option<string>,
    LastModifiedDate: Option<DateTime>,
    LastModifiedBy: Option<string>,
    IsActive: bool)
  {
    /** `$"{FirstName} {LastName}".Trim()`: interpolation renders null as "". */
    function FullName(): (r: string)
      ensures r == [] || (!IsWhiteSpace(r[0]) && !IsWhiteSpace(r[|r| - 1]))
    {
      Trim(FirstName.GetOr("") + " " + LastName.GetOr(""))
    }
  }

  /** `new User()`: every member at its default, except `IsActive`, which starts true. */
  function NewUser(): (u: User)
    ensures u.IsActive
    ensures u.Id == EmptyGuid && u.CreatedDate == 0
    ensures u.FirstName.None? && u.LastName.None? && u.Email.None? && u.PasswordHash.None?
    ensures u.CreatedBy.None? && u.LastModifiedDate.None? && u.LastModifiedBy.None?
  {
    User(EmptyGuid, None, None, None, None, 0, None, None, None, true)
  }

  /** With both names free of surrounding white space and present, the full name is
      the two names joined by one space. */
  lemma FullNameJoins(u: User)
    requires u.FirstName.Some? && u.LastName.Some?
    requires u.FirstName.value != [] && !IsWhiteSpace(u.FirstName.value[0])
    requires u.LastName.value != [] && !IsWhiteSpace(u.LastName.value[|u.LastName.value| - 1])
    ensures u.FullName() == u.FirstName.value + " " + u.LastName.value
  {
    var s := u.FirstName.value + " " + u.LastName.value;
    assert [] + s + [] == s;
    TrimUnique([], s, []);
  }

  /** A null or empty first name leaves the trimmed last name. */
  lemma {:induction false} FullNameWithoutFirst(u: User)
    requires u.FirstName == None || u.FirstName == Some("")
    ensures u.FullName() == Trim(u.LastName.GetOr(""))
  {
    var l := u.LastName.GetOr("");
    assert u.FirstName.GetOr("") + " " + l == " " + l;
    assert (" " + l)[1..] == l;
    assert TrimStart(" " + l) == TrimStart(l);
  }

  /** A null or empty last name leaves the trimmed first name. */
  lemma {:induction false} FullNameWithoutLast(u: User)
    requires u.LastName == None || u.LastName == Some("")
    ensures u.FullName() == Trim(u.FirstName.GetOr(""))
  {
    var f := u.FirstName.GetOr("");
    assert u.FirstName.GetOr("") + " " + u.LastName.GetOr("") == f + " ";
    TrimIgnoresTrailingWhiteSpace(f, " ");
  }
}
