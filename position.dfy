/** The text the tracker hands to the modem for each position report: the latitude and
    longitude in the fixed-width APRS format (chapter 6 of the APRS Protocol Reference 1.0.1)
    and the comment carrying the altitude as "/A=aaaaaa". */
module Position {
  import opened Decimal
  import opened CStrings

  /** Coordinates arrive as signed millionths of a degree. */
  const MICRO: nat := 1000000
  const CONV_BUF_SIZE: nat := 16

  /** Latitudes lie within 90 degrees of the equator, longitudes within 180 of the meridian. */
  predicate InRange(deg: int, isLat: bool)
  {
    Abs(deg) <= (if isLat then 90 else 180) * MICRO
  }

  /** Number of degree digits: DD for latitude, DDD for longitude. */
  function DegreeWidth(isLat: bool): nat { if isLat then 2 else 3 }

  function WholeDegrees(m: nat): nat { m / MICRO }

  /** Whole minutes of the fractional degree, truncated. */
  function Minutes(m: nat): nat { m % MICRO * 60 / MICRO }

  /** Hundredths of a minute left over after the whole minutes, truncated. */
  function Hundredths(m: nat): nat { m % MICRO * 60 % MICRO / 10000 }

  function Hemisphere(deg: int, isLat: bool): char
  {
    if isLat then (if deg < 0 then 'S' else 'N') else (if deg < 0 then 'W' else 'E')
  }

  /** The APRS coordinate: DDMM.hh plus N or S for a latitude, DDDMM.hh plus E or W for a
      longitude, every field zero-padded to its width. */
  function AprsCoordinate(deg: int, isLat: bool): (r: seq<char>)
    requires InRange(deg, isLat)
    ensures |r| == DegreeWidth(isLat) + 6
    ensures AllDigits(r[..|r| - 4]) && r[|r| - 4] == '.' && AllDigits(r[|r| - 3..|r| - 1])
    ensures r[|r| - 1] == Hemisphere(deg, isLat)
  {
    var m := Abs(deg);
    Digits(WholeDegrees(m), DegreeWidth(isLat)) + Digits(Minutes(m), 2) + ['.']
      + Digits(Hundredths(m), 2) + [Hemisphere(deg, isLat)]
  }

  /** The source keeps degrees and minutes in one number, a = degrees * 100 + minutes. */
  lemma DegreeMinuteValue(m: nat)
    requires m <= 180 * MICRO
    ensures var a := m / MICRO * 100 + m % MICRO * 60 / MICRO;
      a <= 18059 && a / 100 == WholeDegrees(m) && a % 100 == Minutes(m) < 60
  {
    var d, mm := WholeDegrees(m), Minutes(m);
    assert d <= 180;
    assert m % MICRO * 60 < 60 * MICRO;
    assert mm < 60;
    DivModUnique(d * 100 + mm, 100, d, mm);
  }

  /** Five digits of a are the degree digits followed by the minute digits; four digits drop
      the hundreds of degrees. */
  lemma DegreeMinuteDigits(a: nat, d: nat, mm: nat)
    requires a == d * 100 + mm && mm < 100
    ensures Digits(a, 5) == Digits(d, 3) + Digits(mm, 2)
    ensures Digits(a, 4) == Digits(d, 2) + Digits(mm, 2)
  {
    assert Pow10(2) == 100;
    DivModUnique(a, 100, d, mm);
    assert DropDigits(a, 2) == DropDigits(a / 10, 1) == DropDigits(a / 10 / 10, 0) == d;
    DigitsSplit(a, 3, 2);
    DigitsSplit(a, 2, 2);
    DigitsMod(a, 2);
  }

  lemma DigitsLeadingZero(a: nat)
    requires a <= 9999
    ensures Digits(a, 5) == ['0'] + Digits(a, 4)
  {
    assert a < Pow10(4) by { assert Pow10(4) == 10000; }
    DropAllDigits(a, 4);
    DigitsSplit(a, 1, 4);
    assert Digits(0, 1) == ['0'];
  }

  /** "%04lu" prints five digits for a five-digit number and four otherwise. */
  lemma FourDigitFormat(a: nat)
    requires a < 100000
    ensures FormatUnsigned(a, 4) == (if a > 9999 then Digits(a, 5) else Digits(a, 4))
  {
    assert Pow10(4) == 10000 && Pow10(5) == 100000;
    if a > 9999 {
      var k := NumDigits(a);
      NumDigitsAtMost(a, 5);
      if k <= 4 {
        Pow10Monotone(k, 4);
        assert false;
      }
    }
  }

  /** deg_to_nmea: fills the shared conversion buffer and returns the string that starts at
      offset 1 (latitude, dropping the pad digit) or 0 (longitude). */
  method DegToNmea(convBuf: array<char>, deg: int, isLat: bool) returns (r: seq<char>)
    requires convBuf.Length == CONV_BUF_SIZE && InRange(deg, isLat)
    modifies convBuf
    ensures r == AprsCoordinate(deg, isLat)
    ensures convBuf[..10] == (if isLat then ['0'] + r else r) + [NUL]
    ensures convBuf[10..] == old(convBuf[10..])
  {
    var isNegative := deg < 0;
    var m := Abs(deg);
    var b := m % MICRO * 60;
    var a := m / MICRO * 100 + b / MICRO;
    b := b % MICRO / 10000;
    DegreeMinuteValue(m);
    ghost var d, mm := WholeDegrees(m), Minutes(m);
    DegreeMinuteDigits(a, d, mm);
    assert b == Hundredths(m) < 100;
    ghost var letter := Hemisphere(deg, isLat);
    var hemisphere := if isLat then (if isNegative then 'S' else 'N') else (if isNegative then 'W' else 'E');
    assert hemisphere == letter;
    FillConvBuf(convBuf, a, b, hemisphere);
    ghost var full := convBuf[..10];
    BufferLayout(Digits(a, 5), Digits(a, 4), Digits(b, 2), hemisphere, full);
    if isLat {
      DigitsLeadingZero(a);
      r := convBuf[1..9];
      assert r == full[1..9];
    } else {
      r := convBuf[..9];
      assert r == full[..9];
    }
  }

  /** Where the pieces of the conversion buffer lie, so that each return value is a slice. */
  lemma BufferLayout(a5: seq<char>, a4: seq<char>, b2: seq<char>, h: char, buf: seq<char>)
    requires |a5| == 5 && |b2| == 2 && buf == a5 + ['.'] + b2 + [h, NUL]
    ensures buf[..9] == a5 + ['.'] + b2 + [h]
    ensures a5 == ['0'] + a4 ==> buf[1..9] == a4 + ['.'] + b2 + [h]
    ensures buf[9] == NUL
  {
  }

  /** The buffer writes of deg_to_nmea: a as five digits (the first one the pad zero when a
      has four), the decimal point, b as two digits, the hemisphere letter, the terminator. */
  method FillConvBuf(convBuf: array<char>, a: nat, b: nat, hemisphere: char)
    requires convBuf.Length == CONV_BUF_SIZE && a < 100000 && b < 100
    modifies convBuf
    ensures convBuf[..10] == Digits(a, 5) + ['.'] + Digits(b, 2) + [hemisphere, NUL]
    ensures convBuf[10..] == old(convBuf[10..])
  {
    ghost var tail := convBuf[10..];
    PutDegreesMinutes(convBuf, a);
    assert convBuf[10..] == tail;
    convBuf[5] := '.';
    ghost var head := convBuf[..6];
    assert head == Digits(a, 5) + ['.'];
    assert convBuf[10..] == tail;
    assert FormatUnsigned(b, 2) == Digits(b, 2) by { assert Pow10(2) == 100; }
    var _ := PutString(convBuf, 6, 3, FormatUnsigned(b, 2));
    ghost var body := convBuf[..8];
    assert body == head + Digits(b, 2);
    assert convBuf[10..] == tail;
    convBuf[9] := NUL;
    convBuf[8] := hemisphere;
    assert convBuf[..10] == body + [hemisphere, NUL];
    assert convBuf[10..] == tail;
  }

  /** The first five characters: the pad digit, then "%04lu" of a, which overwrites the pad
      digit when a has five digits; the terminator snprintf writes lands at offset 5. */
  method PutDegreesMinutes(convBuf: array<char>, a: nat)
    requires convBuf.Length == CONV_BUF_SIZE && a < 100000
    modifies convBuf
    ensures convBuf[..5] == Digits(a, 5)
    ensures convBuf[6..] == old(convBuf[6..])
  {
    convBuf[0] := '0';
    ghost var padded := convBuf[..];
    assert padded[6..] == old(convBuf[6..]);
    // a three-digit degree value fills the pad position as well
    if a > 9999 {
      assert FormatUnsigned(a, 4) == Digits(a, 5) by { FourDigitFormat(a); }
      var _ := PutString(convBuf, 0, 6, FormatUnsigned(a, 4));
    } else {
      assert FormatUnsigned(a, 4) == Digits(a, 4) by { FourDigitFormat(a); }
      var _ := PutString(convBuf, 1, 5, FormatUnsigned(a, 4));
      assert convBuf[..5] == ['0'] + Digits(a, 4);
      DigitsLeadingZero(a);
    }
    assert convBuf[6..] == padded[6..];
  }

  /** Read back, the fields are the whole degrees, the minutes (always below 60) and the
      hundredths of a minute; minutes and hundredths together are the fractional degree
      in hundredths of a minute, truncated. */
  lemma CoordinateFields(deg: int, isLat: bool)
    requires InRange(deg, isLat)
    ensures var r, w, m := AprsCoordinate(deg, isLat), DegreeWidth(isLat), Abs(deg);
      && ValueOf(r[..w]) == m / MICRO
      && ValueOf(r[w..w + 2]) == Minutes(m) < 60
      && ValueOf(r[w + 3..w + 5]) == Hundredths(m)
      && Minutes(m) * 100 + Hundredths(m) == 6 * (m % MICRO) / 1000
  {
    var r, w, m := AprsCoordinate(deg, isLat), DegreeWidth(isLat), Abs(deg);
    var mm, hh := Minutes(m), Hundredths(m);
    MinuteFraction(m % MICRO);
    assert r[..w] == Digits(m / MICRO, w);
    assert r[w..w + 2] == Digits(mm, 2);
    assert r[w + 3..w + 5] == Digits(hh, 2);
    assert Pow10(2) == 100 && Pow10(3) == 1000;
    DigitsReadBack(m / MICRO, w);
    DigitsReadBack(mm, 2);
    DigitsReadBack(hh, 2);
  }

  /** The fractional degree f (in millionths) as whole minutes and hundredths of a minute. */
  lemma MinuteFraction(f: nat)
    requires f < MICRO
    ensures f * 60 / MICRO < 60
    ensures f * 60 % MICRO / 10000 < 100
    ensures f * 60 / MICRO * 100 + f * 60 % MICRO / 10000 == 6 * f / 1000
  {
    var mm, hh := f * 60 / MICRO, f * 60 % MICRO / 10000;
    assert f * 60 < 60 * MICRO;
    // 60 f = 10^6 mm + 10^4 hh + rest, with rest below 10^4
    var rest := f * 60 % MICRO % 10000;
    assert f * 60 == 10000 * (mm * 100 + hh) + rest;
    assert 6 * f == 1000 * (mm * 100 + hh) + rest / 10;
    DivModUnique(6 * f, 1000, mm * 100 + hh, rest / 10);
  }

  /** A longitude below 100 degrees carries a leading zero. */
  lemma LongitudePadding(deg: int)
    requires Abs(deg) < 100 * MICRO
    ensures AprsCoordinate(deg, false)[0] == '0'
  {
    var d := WholeDegrees(Abs(deg));
    assert Pow10(2) == 100;
    DigitsSplit(d, 1, 2);
    DropAllDigits(d, 2);
    assert Digits(0, 1) == ['0'];
  }

  /** Negating a coordinate changes only its hemisphere letter. */
  lemma SignOnlyChangesHemisphere(d: int, isLat: bool)
    requires d > 0 && InRange(d, isLat)
    ensures var p, n := AprsCoordinate(d, isLat), AprsCoordinate(-d, isLat);
      && p[..|p| - 1] == n[..|n| - 1]
      && p[|p| - 1] == (if isLat then 'N' else 'E')
      && n[|n| - 1] == (if isLat then 'S' else 'W')
  {
  }

  lemma TwoDigits(v: nat)
    requires v < 100
    ensures Digits(v, 2) == [DigitChar(v / 10), DigitChar(v % 10)]
  {
    var hi := v / 10;
    assert hi < 10 && hi / 10 == 0 && hi % 10 == hi;
    assert Digits(hi, 1) == [DigitChar(hi)];
  }

  lemma ThreeDigits(v: nat)
    requires v < 1000
    ensures Digits(v, 3) == [DigitChar(v / 100), DigitChar(v / 10 % 10), DigitChar(v % 10)]
  {
    assert Digits(v, 3) == Digits(v / 10, 2) + [DigitChar(v % 10)];
    TwoDigits(v / 10);
  }

  /** 45.1234 degrees north: 45 degrees, 0.1234 * 60 = 7.404 minutes. */
  lemma LatitudeExample()
    ensures AprsCoordinate(45123400, true) == "4507.40N"
  {
    assert WholeDegrees(45123400) == 45 && Minutes(45123400) == 7 && Hundredths(45123400) == 40;
    TwoDigits(45);
    TwoDigits(7);
    TwoDigits(40);
  }

  /** 122.4194 degrees west: 122 degrees, 0.4194 * 60 = 25.164 minutes. */
  lemma LongitudeExample()
    ensures AprsCoordinate(-122419400, false) == "12225.16W"
  {
    assert WholeDegrees(122419400) == 122 && Minutes(122419400) == 25 && Hundredths(122419400) == 16;
    ThreeDigits(122);
    TwoDigits(25);
    TwoDigits(16);
  }

  // The comment of a position report

  const ALTITUDE_TAG: seq<char> := "/A="
  const TRACKER_COMMENT: seq<char> := "Arduino APRS Tracker"
  const ALT_BUF_SIZE: nat := 8
  const COMMENT_BUF_SIZE: nat := 36

  /** The altitudes whose "%06d" text, with its terminator, fits the 8-character buffer. */
  predicate AltitudeFits(ialt: int) { -999999 <= ialt <= 9999999 }

  /** "/A=", the altitude in feet as %06d prints it, then the fixed comment text; it always
      fits the 36-character comment buffer with its terminator. */
  function AltitudeComment(ialt: int): (c: seq<char>)
    requires AltitudeFits(ialt)
    ensures 3 + |TRACKER_COMMENT| <= |c| < COMMENT_BUF_SIZE && NUL !in c
    ensures c[..3] == ALTITUDE_TAG && c[|c| - |TRACKER_COMMENT|..] == TRACKER_COMMENT
  {
    var text := FormatSigned(ialt, 6);
    AltitudeTextWidth(ialt);
    assert NUL !in ALTITUDE_TAG && NUL !in TRACKER_COMMENT;
    JoinParts(ALTITUDE_TAG, text, TRACKER_COMMENT);
    ALTITUDE_TAG + text + TRACKER_COMMENT
  }

  lemma AltitudeTextWidth(ialt: int)
    requires AltitudeFits(ialt)
    ensures 6 <= |FormatSigned(ialt, 6)| < ALT_BUF_SIZE
    ensures NUL !in FormatSigned(ialt, 6)
  {
    assert Pow10(6) == 1000000 && Pow10(7) == 10000000;
    if ialt < 0 {
      NumDigitsAtMost(-ialt, 6);
    } else {
      NumDigitsAtMost(ialt, 7);
    }
    var s := FormatSigned(ialt, 6);
    assert forall i :: 0 <= i < |s| ==> s[i] != NUL;
  }

  /** For altitudes of zero to 999999 feet the comment is exactly "/A=" and six digits that
      read back as the altitude, then the comment text: 29 characters. Between -99999 and -1
      the six characters are a minus sign and five digits of the magnitude. */
  lemma AltitudeCommentLayout(ialt: int)
    requires -99999 <= ialt <= 999999
    ensures var c := AltitudeComment(ialt);
      && |c| == 29
      && c[9..] == TRACKER_COMMENT
      && (ialt >= 0 ==> AllDigits(c[3..9]) && ValueOf(c[3..9]) == ialt)
      && (ialt < 0 ==> c[3] == '-' && AllDigits(c[4..9]) && ValueOf(c[4..9]) == -ialt)
  {
    var c, text := AltitudeComment(ialt), FormatSigned(ialt, 6);
    AltitudeSixChars(ialt);
    assert c == ALTITUDE_TAG + text + TRACKER_COMMENT;
    assert c[3..9] == text && c[9..] == TRACKER_COMMENT;
    if ialt >= 0 {
      assert Pow10(6) == 1000000;
      DigitsReadBack(ialt, 6);
    } else {
      assert c[4..9] == text[1..] == Digits(-ialt, 5);
      assert Pow10(5) == 100000;
      DigitsReadBack(-ialt, 5);
    }
  }

  /** Between -99999 and 999999 "%06d" prints exactly six characters. */
  lemma AltitudeSixChars(ialt: int)
    requires -99999 <= ialt <= 999999
    ensures ialt >= 0 ==> FormatSigned(ialt, 6) == Digits(ialt, 6)
    ensures ialt < 0 ==> FormatSigned(ialt, 6) == ['-'] + Digits(-ialt, 5)
  {
    assert Pow10(5) == 100000 && Pow10(6) == 1000000;
  }

  /** The comment construction of locationUpdate: "%06d" into an 8-character buffer, then
      two strcat calls onto the 36-character buffer that starts out as "/A=". Returns the
      NUL-terminated text of that buffer, which is what is handed to the modem. */
  method LocationComment(ialt: int) returns (comment: seq<char>)
    requires AltitudeFits(ialt)
    ensures comment == AltitudeComment(ialt)
  {
    var text := InitBuffer(TRACKER_COMMENT, |TRACKER_COMMENT| + 1);
    var temp := new char[ALT_BUF_SIZE];
    var aprsComment := InitBuffer(ALTITUDE_TAG, COMMENT_BUF_SIZE);
    ghost var commentText := CString(text[..]);

    var altitude := FormatSigned(ialt, 6);
    AltitudeTextWidth(ialt);
    Sprintf(temp, altitude);
    assert CString(temp[..]) == altitude by {
      CStringOfTerminated(altitude, temp[|altitude| + 1..]);
    }

    StrCat(aprsComment, temp);
    ghost var withAltitude := CString(aprsComment[..]);
    assert withAltitude == ALTITUDE_TAG + altitude;
    StrCat(aprsComment, text);
    assert CString(aprsComment[..]) == withAltitude + commentText;
    comment := CString(aprsComment[..]);
  }
}
