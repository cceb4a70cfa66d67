/** Log file names: a prefix and a four-digit number, and how the number of a directory entry is read back. */
module LogName {

  const MAX_FILE_NUMERAL := 9999
  const FILE_NUMERAL_LEN := 4

  function DigitChar(d: int): char
    requires 0 <= d < 10
  {
    '0' + d as char
  }

  predicate IsDigit(c: char) {
    '0' <= c <= '9'
  }

  predicate IsSpace(c: char) {
    c == ' ' || '\t' <= c <= '\r'
  }

  function Numeral(n: int): (s: string)
    requires 0 <= n <= MAX_FILE_NUMERAL
    ensures |s| == FILE_NUMERAL_LEN
  {
    [DigitChar(n / 1000), DigitChar(n / 100 % 10), DigitChar(n / 10 % 10), DigitChar(n % 10)]
  }

  /** The name of log file n: %s%04d. */
  function FileName(prefix: string, n: int): string
    requires 0 <= n <= MAX_FILE_NUMERAL
  {
    prefix + Numeral(n)
  }

  /** The digits s starts with, continuing from `sofar`. */
  function DigitsValue(s: string, sofar: int): int {
    if s == [] || !IsDigit(s[0]) then sofar
    else DigitsValue(s[1..], 10 * sofar + (s[0] - '0') as int)
  }

  /** C's atoi. */
  function Atoi(s: string): int {
    if s == [] then 0
    else if IsSpace(s[0]) then Atoi(s[1..])
    else if s[0] == '-' then -DigitsValue(s[1..], 0)
    else if s[0] == '+' then DigitsValue(s[1..], 0)
    else DigitsValue(s, 0)
  }

  /** get_log_file_id: -1 for what is not a log file. */
  function FileId(prefix: string, name: string, isFile: bool): int {
    if !isFile then -1
    else if |name| != |prefix| + FILE_NUMERAL_LEN then -1
    else if name[..|prefix|] != prefix then -1
    else
      var num := Atoi(name[|prefix|..]);
      if 0 <= num <= MAX_FILE_NUMERAL then num else -1
  }

  predicate AllDigits(s: string) {
    forall i :: 0 <= i < |s| ==> IsDigit(s[i])
  }

  lemma FourDigits(s: string)
    requires |s| == 4 && AllDigits(s)
    ensures Atoi(s) == 1000 * (s[0] - '0') as int + 100 * (s[1] - '0') as int + 10 * (s[2] - '0') as int
                       + (s[3] - '0') as int
  {
    var s1, s2, s3 := s[1..], s[2..], s[3..];
    var d := (s[0] - '0') as int;
    assert s1[1..] == s2 && s2[1..] == s3 && s3[1..] == [];
    assert DigitsValue(s, 0) == DigitsValue(s1, d);
    var e := 10 * d + (s1[0] - '0') as int;
    assert DigitsValue(s1, d) == DigitsValue(s2, e);
    var f := 10 * e + (s2[0] - '0') as int;
    assert DigitsValue(s2, e) == DigitsValue(s3, f);
    assert DigitsValue(s3, f) == 10 * f + (s3[0] - '0') as int;
  }

  lemma DigitsOf(n: int, a: int, b: int, c: int, d: int)
    requires 0 <= a < 10 && 0 <= b < 10 && 0 <= c < 10 && 0 <= d < 10
    ensures n == 1000 * a + 100 * b + 10 * c + d && 0 <= n <= MAX_FILE_NUMERAL ==>
      n / 1000 == a && n / 100 % 10 == b && n / 10 % 10 == c && n % 10 == d
  {
    if n == 1000 * a + 100 * b + 10 * c + d {
      assert n / 10 == 100 * a + 10 * b + c && n % 10 == d;
      assert n / 100 == 10 * a + b;
      assert n / 1000 == a;
    }
  }

  lemma NumeralValue(n: int)
    requires 0 <= n <= MAX_FILE_NUMERAL
    ensures AllDigits(Numeral(n)) && Atoi(Numeral(n)) == n
  {
    var s := Numeral(n);
    FourDigits(s);
    DigitsSum(n);
  }

  lemma DigitsSum(n: int)
    requires 0 <= n <= MAX_FILE_NUMERAL
    ensures n == 1000 * (n / 1000) + 100 * (n / 100 % 10) + 10 * (n / 10 % 10) + n % 10
  {
    TenfoldDivision(n, 10);
    TenfoldDivision(n, 100);
    var q, r := n / 10, n / 100;
    assert n == 10 * q + n % 10 && q == 10 * r + q % 10 && r == 10 * (n / 1000) + r % 10;
  }

  lemma TenfoldDivision(n: int, d: int)
    requires n >= 0 && (d == 10 || d == 100)
    ensures n / d / 10 == n / (10 * d)
  {
  }

  lemma NumeralOfValue(s: string)
    requires |s| == 4 && AllDigits(s)
    ensures 0 <= Atoi(s) <= MAX_FILE_NUMERAL && Numeral(Atoi(s)) == s
  {
    FourDigits(s);
    DigitsOf(Atoi(s), (s[0] - '0') as int, (s[1] - '0') as int, (s[2] - '0') as int, (s[3] - '0') as int);
  }

  /** The number of a log file's own name is read back. */
  lemma NameRoundTrip(prefix: string, n: int)
    requires 0 <= n <= MAX_FILE_NUMERAL
    ensures FileId(prefix, FileName(prefix, n), true) == n
  {
    var name := FileName(prefix, n);
    assert name[..|prefix|] == prefix && name[|prefix|..] == Numeral(n);
    NumeralValue(n);
  }

  /** Only files with the prefix and four more characters are read as log files, never as one above the highest. */
  lemma OnlyLogFiles(prefix: string, name: string, isFile: bool)
    requires FileId(prefix, name, isFile) != -1
    ensures isFile && |name| == |prefix| + 4 && prefix <= name
    ensures 0 <= FileId(prefix, name, isFile) <= 9999
  {
  }

  /** An entry that is read as number n is log file n exactly when its last four characters are digits: atoi also
      accepts white space, a sign and trailing garbage. */
  lemma IdNamesFile(prefix: string, name: string)
    requires FileId(prefix, name, true) >= 0
    ensures name == FileName(prefix, FileId(prefix, name, true)) <==> AllDigits(name[|prefix|..])
  {
    var n := FileId(prefix, name, true);
    var s := name[|prefix|..];
    assert name == prefix + s;
    NumeralValue(n);
    if AllDigits(s) {
      NumeralOfValue(s);
    }
    assert FileName(prefix, n)[|prefix|..] == Numeral(n);
  }

  /** Such an entry that is no log file, but counted as one. */
  lemma LookAlike()
    ensures FileId("log.", "log.12ab", true) == 12 && "log.12ab" != FileName("log.", 12)
  {
    var name := "log.12ab";
    assert name[..4] == "log." && name[4..] == "12ab";
    var s := "12ab";
    assert s[1..] == "2ab" && s[1..][1..] == "ab";
    assert FileName("log.", 12)[6] == Numeral(12)[2] == '1';
  }
}
