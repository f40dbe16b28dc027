/** `generate_daily_gazette_link` (mailer/notification.py): the deep link to
    the day's edition of the Minas Gerais official gazette, and the two date
    formats used in the notification e-mail. */
module Gazette {
  import opened Decimal
  import opened PercentEncoding

  /** A calendar date, as a Python `datetime.date` holds it. */
  datatype Date = Date(year: int, month: int, day: int)

  function DaysInMonth(year: int, month: int): int {
    if month == 2 then
      (if (year % 4 == 0 && year % 100 != 0) || year % 400 == 0 then 29 else 28)
    else if month == 4 || month == 6 || month == 9 || month == 11 then 30
    else 31
  }

  /** The dates Python can represent: years 1 to 9999. */
  predicate ValidDate(d: Date) {
    1 <= d.year <= 9999 && 1 <= d.month <= 12 && 1 <= d.day <= DaysInMonth(d.year, d.month)
  }

  /** `strftime("%Y-%m-%d")`. */
  function IsoDate(d: Date): string
    requires ValidDate(d)
  {
    Padded(d.year, 4) + "-" + Padded(d.month, 2) + "-" + Padded(d.day, 2)
  }

  /** `strftime('%d/%m/%Y')`, the date shown in the e-mail. */
  function BrDate(d: Date): string
    requires ValidDate(d)
  {
    Padded(d.day, 2) + "/" + Padded(d.month, 2) + "/" + Padded(d.year, 4)
  }

  lemma FieldsFit(d: Date)
    requires ValidDate(d)
    ensures AllDigits(Padded(d.year, 4)) && AllDigits(Padded(d.month, 2)) && AllDigits(Padded(d.day, 2))
    ensures DigitsValue(Padded(d.year, 4)) == d.year
    ensures DigitsValue(Padded(d.month, 2)) == d.month
    ensures DigitsValue(Padded(d.day, 2)) == d.day
  {
    assert Pow10(2) == 100 && Pow10(4) == 10000;
    PaddedValue(d.year, 4);
    PaddedValue(d.month, 2);
    PaddedValue(d.day, 2);
  }

  /** The ISO form is ten characters, `YYYY-MM-DD`, whose zero-padded digit
      fields read back as the year, the month and the day. */
  lemma IsoDateFields(d: Date)
    requires ValidDate(d)
    ensures var r := IsoDate(d);
      && |r| == 10 && r[4] == '-' && r[7] == '-'
      && AllDigits(r[..4]) && AllDigits(r[5..7]) && AllDigits(r[8..])
      && DigitsValue(r[..4]) == d.year
      && DigitsValue(r[5..7]) == d.month
      && DigitsValue(r[8..]) == d.day
  {
    FieldsFit(d);
    var r := IsoDate(d);
    assert r[..4] == Padded(d.year, 4);
    assert r[5..7] == Padded(d.month, 2);
    assert r[8..] == Padded(d.day, 2);
  }

  /** The displayed form is ten characters, `DD/MM/YYYY`, whose fields read
      back as the day, the month and the year. */
  lemma BrDateFields(d: Date)
    requires ValidDate(d)
    ensures var r := BrDate(d);
      && |r| == 10 && r[2] == '/' && r[5] == '/'
      && AllDigits(r[..2]) && AllDigits(r[3..5]) && AllDigits(r[6..])
      && DigitsValue(r[..2]) == d.day
      && DigitsValue(r[3..5]) == d.month
      && DigitsValue(r[6..]) == d.year
  {
    FieldsFit(d);
    var r := BrDate(d);
    assert r[..2] == Padded(d.day, 2);
    assert r[3..5] == Padded(d.month, 2);
    assert r[6..] == Padded(d.year, 4);
  }

  const PayloadPrefix := "{\"dataPublicacaoSelecionada\":\""
  const PayloadSuffix := "T03:00:00.000Z\"}"
  const BaseUrl := "https://www.jornalminasgerais.mg.gov.br/edicao-do-dia?dados="

  /** The JSON state the gazette's page reads: the selected publication date
      at 03:00 UTC. */
  function Payload(d: Date): string
    requires ValidDate(d)
  {
    PayloadPrefix + IsoDate(d) + PayloadSuffix
  }

  /** `generate_daily_gazette_link`: the fixed address followed by the
      percent-encoded payload. */
  function GazetteLink(d: Date): (link: string)
    requires ValidDate(d)
    ensures |BaseUrl| <= |link| && link[..|BaseUrl|] == BaseUrl
  {
    BaseUrl + Quote(Payload(d))
  }

  function LinkPayload(link: string): string
    requires |BaseUrl| <= |link|
  {
    link[|BaseUrl|..]
  }

  lemma PayloadAscii(d: Date)
    requires ValidDate(d)
    ensures forall k :: 0 <= k < |Payload(d)| ==> Payload(d)[k] as int < 0x80
  {
    var p := Payload(d);
    var date := IsoDate(d);
    PaddedDigits(d.year, 4);
    PaddedDigits(d.month, 2);
    PaddedDigits(d.day, 2);
    forall k | 0 <= k < |p| ensures p[k] as int < 0x80 {
      if |PayloadPrefix| <= k < |PayloadPrefix| + |date| {
        assert p[k] == date[k - |PayloadPrefix|];
      }
    }
  }

  /** Percent-decoding what follows `?dados=` gives, byte for byte, the
      payload `{"dataPublicacaoSelecionada":"YYYY-MM-DDT03:00:00.000Z"}`. */
  lemma GazetteLinkDecodes(d: Date)
    requires ValidDate(d)
    ensures var bytes := Unquote(LinkPayload(GazetteLink(d)));
      && |bytes| == |Payload(d)|
      && forall k :: 0 <= k < |bytes| ==> bytes[k] as int == Payload(d)[k] as int
  {
    var link := GazetteLink(d);
    assert LinkPayload(link) == Quote(Payload(d));
    UnquoteQuote(Payload(d));
    PayloadAscii(d);
    Utf8EncodeAscii(Payload(d));
  }

  /** What follows `?dados=` holds only ASCII letters, digits, `_.-~/` and
      `%XX` triplets with upper-case hexadecimal digits. */
  lemma GazetteLinkEncoded(d: Date)
    requires ValidDate(d)
    ensures Encoded(LinkPayload(GazetteLink(d)))
  {
    assert LinkPayload(GazetteLink(d)) == Quote(Payload(d));
    QuoteEncoded(Payload(d));
  }

  /** The date of 5 January 2024 as it appears inside the payload. */
  lemma IsoDateExample()
    ensures IsoDate(Date(2024, 1, 5)) == "2024-01-05"
  {
    assert Padded(2024, 4) == "2024";
    assert Padded(1, 2) == "01";
    assert Padded(5, 2) == "05";
  }

  /** The JSON punctuation of the payload is percent-encoded with upper-case
      hexadecimal digits. */
  lemma QuoteExamples()
    ensures Quote("{\"") == "%7B%22"
    ensures Quote("\":\"") == "%22%3A%22"
    ensures Quote("\"}") == "%22%7D"
  { }
}
