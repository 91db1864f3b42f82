/** The header of an INMET station file: the first eight lines hold
    "KEY:;value" pairs, from which the station's latitude, longitude and WMO
    code are read, before they are converted to numbers. */
module StationHeader {
  import opened Wrappers

  // ---------------------------------------------------------------------------
  // str.strip()

  /** Python's str.isspace() for one character. */
  predicate IsSpace(c: char) {
    var n := c as int;
    || 9 <= n <= 13
    || 28 <= n <= 32
    || n == 0x85 || n == 0xA0 || n == 0x1680
    || 0x2000 <= n <= 0x200A
    || n == 0x2028 || n == 0x2029 || n == 0x202F || n == 0x205F || n == 0x3000
  }

  /** The number of whitespace characters s starts with. */
  function Lead(s: string): (n: nat)
    ensures n <= |s|
    ensures forall j :: 0 <= j < n ==> IsSpace(s[j])
    ensures n < |s| ==> !IsSpace(s[n])
  {
    if s == [] || !IsSpace(s[0]) then 0 else 1 + Lead(s[1..])
  }

  /** The number of whitespace characters s ends with. */
  function Trail(s: string): (n: nat)
    ensures n <= |s|
    ensures forall j :: |s| - n <= j < |s| ==> IsSpace(s[j])
    ensures n < |s| ==> !IsSpace(s[|s| - n - 1])
  {
    if s == [] || !IsSpace(s[|s| - 1]) then 0 else 1 + Trail(s[..|s| - 1])
  }

  /** str.strip(): s without its leading and trailing whitespace. */
  function Strip(s: string): (r: string)
    ensures |r| <= |s|
  {
    if Lead(s) == |s| then []
    else
      assert Lead(s) < |s| - Trail(s);
      s[Lead(s)..|s| - Trail(s)]
  }

  /** What strip() removes is whitespace, and what it keeps is the part of s
      between them that neither starts nor ends with whitespace. */
  lemma StripSpec(s: string)
    ensures exists i, j ::
      && 0 <= i <= j <= |s| && Strip(s) == s[i..j]
      && (forall k :: 0 <= k < i ==> IsSpace(s[k]))
      && (forall k :: j <= k < |s| ==> IsSpace(s[k]))
    ensures Strip(s) != [] ==> !IsSpace(Strip(s)[0]) && !IsSpace(Strip(s)[|Strip(s)| - 1])
  {
    var i := Lead(s);
    var j := if i == |s| then |s| else |s| - Trail(s);
    assert i <= j && Strip(s) == s[i..j];
    assert forall k :: 0 <= k < i ==> IsSpace(s[k]);
    assert forall k :: j <= k < |s| ==> IsSpace(s[k]);
  }

  /** A string with no whitespace at either end is its own strip. */
  lemma StripTrimmed(s: string)
    requires s != [] ==> !IsSpace(s[0]) && !IsSpace(s[|s| - 1])
    ensures Strip(s) == s
  {
    if s != [] {
      assert Lead(s) == 0;
      assert Trail(s) == 0;
    }
  }

  /** Stripping twice strips nothing more. */
  lemma StripIdempotent(s: string)
    ensures Strip(Strip(s)) == Strip(s)
  {
    StripSpec(s);
    StripTrimmed(Strip(s));
  }

  /** A string strips to nothing exactly when it is all whitespace. */
  lemma StripEmpty(s: string)
    ensures Strip(s) == [] <==> forall k :: 0 <= k < |s| ==> IsSpace(s[k])
  {
    StripSpec(s);
    if forall k :: 0 <= k < |s| ==> IsSpace(s[k]) {
      assert Lead(s) == |s|;
    }
  }

  // ---------------------------------------------------------------------------
  // line.split(";", 1)

  /** The position of the first c in s, or |s| when there is none. */
  function FirstIndex(s: string, c: char): (r: nat)
    ensures r <= |s|
    ensures r < |s| ==> s[r] == c
    ensures forall k :: 0 <= k < r ==> s[k] != c
  {
    if s == [] || s[0] == c then 0 else 1 + FirstIndex(s[1..], c)
  }

  /** Both halves of a line split at its first ';': the key has no ';', the
      value keeps all the later ones, and joined with ';' they are the line. */
  function SplitOnce(line: string): (r: (string, string))
    requires ';' in line
    ensures r.0 + [';'] + r.1 == line
    ensures ';' !in r.0
  {
    var i := FirstIndex(line, ';');
    assert line == line[..i] + [';'] + line[i + 1..];
    (line[..i], line[i + 1..])
  }

  /** Only one split has a ';'-free key, so the split is determined by that. */
  lemma SplitOnceUnique(line: string, k: string, v: string)
    requires k + [';'] + v == line && ';' !in k
    ensures ';' in line && SplitOnce(line) == (k, v)
  {
    assert line[|k|] == ';';
    assert forall m :: 0 <= m < |k| ==> line[m] == k[m];
    assert FirstIndex(line, ';') == |k|;
    assert line[..|k|] == k && line[|k| + 1..] == v;
  }

  function KeyOf(line: string): string
    requires ';' in line
  {
    Strip(SplitOnce(line).0)
  }

  function ValueOf(line: string): string
    requires ';' in line
  {
    Strip(SplitOnce(line).1)
  }

  // ---------------------------------------------------------------------------
  // The metadados dictionary

  /** The dictionary the loop over the lines builds: a line with a ';' sets its
      stripped key to its stripped value, replacing an earlier one; a line
      without ';' is skipped. */
  function Metadata(linhas: seq<string>): map<string, string> {
    if linhas == [] then map[]
    else
      var n := |linhas| - 1;
      var m := Metadata(linhas[..n]);
      if ';' in linhas[n] then m[KeyOf(linhas[n]) := ValueOf(linhas[n])] else m
  }

  /** A key is in the dictionary exactly when some line with a ';' has it. */
  lemma {:induction false} MetadataKeys(linhas: seq<string>, k: string)
    ensures k in Metadata(linhas) <==> exists i :: 0 <= i < |linhas| && ';' in linhas[i] && KeyOf(linhas[i]) == k
  {
    if linhas != [] {
      var n := |linhas| - 1;
      var p := linhas[..n];
      MetadataKeys(p, k);
      assert forall i :: 0 <= i < n ==> p[i] == linhas[i];
    }
  }

  /** The last line that has the key decides its value. */
  lemma {:induction false} MetadataLastWins(linhas: seq<string>, i: nat)
    requires i < |linhas| && ';' in linhas[i]
    requires forall j :: i < j < |linhas| && ';' in linhas[j] ==> KeyOf(linhas[j]) != KeyOf(linhas[i])
    ensures KeyOf(linhas[i]) in Metadata(linhas)
    ensures Metadata(linhas)[KeyOf(linhas[i])] == ValueOf(linhas[i])
  {
    var n := |linhas| - 1;
    if i < n {
      assert linhas[..n][i] == linhas[i];
      forall j | i < j < n && ';' in linhas[..n][j] ensures KeyOf(linhas[..n][j]) != KeyOf(linhas[..n][i]) {
        assert linhas[..n][j] == linhas[j];
      }
      MetadataLastWins(linhas[..n], i);
    }
  }

  /** A line without ';' changes nothing, wherever it stands. */
  lemma {:induction false} MetadataSkipsPlainLines(a: seq<string>, line: string, b: seq<string>)
    requires ';' !in line
    ensures Metadata(a + [line] + b) == Metadata(a + b)
  {
    if b == [] {
      MetadataSnoc(a, line);
      assert a + [line] + b == a + [line];
      assert a + b == a;
    } else {
      var n := |b| - 1;
      MetadataSkipsPlainLines(a, line, b[..n]);
      assert a + [line] + b == (a + [line] + b[..n]) + [b[n]];
      assert a + b == (a + b[..n]) + [b[n]];
      MetadataSnoc(a + [line] + b[..n], b[n]);
      MetadataSnoc(a + b[..n], b[n]);
    }
  }

  /** One more line at the end updates the dictionary of the lines before it. */
  lemma MetadataSnoc(p: seq<string>, line: string)
    ensures Metadata(p + [line]) == if ';' in line then Metadata(p)[KeyOf(line) := ValueOf(line)] else Metadata(p)
  {
    assert (p + [line])[..|p|] == p;
  }

  // ---------------------------------------------------------------------------
  // The result

  /** The dictionary extrair_lat_lon returns, its three values before float(). */
  datatype Station = Station(latitude: string, longitude: string, codigo: string)

  const LatitudeKey := "LATITUDE:"
  const LongitudeKey := "LONGITUDE:"
  const CodigoKey := "CODIGO (WMO):"
  const Nan := "nan"

  /** dict.get(key, default). */
  function Get(m: map<string, string>, key: string, default: string): (r: string)
    ensures key in m ==> r == m[key]
    ensures key !in m ==> r == default
  {
    if key in m then m[key] else default
  }

  /** str.replace(",", "."): a decimal comma becomes a decimal point. */
  function DecimalPoint(s: string): (r: string)
    ensures |r| == |s|
    ensures forall i :: 0 <= i < |s| ==> r[i] == if s[i] == ',' then '.' else s[i]
  {
    if s == [] then [] else [if s[0] == ',' then '.' else s[0]] + DecimalPoint(s[1..])
  }

  /** After the replacement no comma is left, and the replacement does nothing
      more to a string without one. */
  lemma DecimalPointSpec(s: string)
    ensures ',' !in DecimalPoint(s)
    ensures ',' !in s ==> DecimalPoint(s) == s
  {
    assert forall i :: 0 <= i < |s| ==> DecimalPoint(s)[i] != ',';
  }

  function StripAll(linhas: seq<string>): (r: seq<string>)
    ensures |r| == |linhas|
    ensures forall i :: 0 <= i < |linhas| ==> r[i] == Strip(linhas[i])
  {
    seq(|linhas|, i requires 0 <= i < |linhas| => Strip(linhas[i]))
  }

  /** What extrair_lat_lon makes of a file given as the lines its iterator
      yields: None when there are fewer than eight, otherwise the three values
      read from the first eight lines, stripped. */
  function HeaderOf(arquivo: seq<string>): Option<Station> {
    if |arquivo| < 8 then None
    else
      var metadados := Metadata(StripAll(arquivo[..8]));
      Some(Station(DecimalPoint(Get(metadados, LatitudeKey, Nan)),
                   DecimalPoint(Get(metadados, LongitudeKey, Nan)),
                   Get(metadados, CodigoKey, Nan)))
  }

  /** extrair_lat_lon up to the float() calls: read eight lines, stripping
      each, then fill the dictionary line by line and look the three keys up. */
  method ExtrairLatLon(arquivo: seq<string>) returns (r: Option<Station>)
    ensures r == HeaderOf(arquivo)
  {
    var linhas: seq<string> := [];
    var i := 0;
    while i < 8
      invariant 0 <= i <= 8 && i <= |arquivo|
      invariant linhas == StripAll(arquivo[..i])
    {
      if i == |arquivo| {
        return None;
      }
      assert arquivo[..i + 1] == arquivo[..i] + [arquivo[i]];
      linhas := linhas + [Strip(arquivo[i])];
      i := i + 1;
    }
    var metadados: map<string, string> := map[];
    var j := 0;
    while j < |linhas|
      invariant 0 <= j <= |linhas|
      invariant metadados == Metadata(linhas[..j])
    {
      MetadataStep(linhas, j);
      var linha := linhas[j];
      if ';' in linha {
        var partes := SplitOnce(linha);
        metadados := metadados[Strip(partes.0) := Strip(partes.1)];
      }
      j := j + 1;
    }
    assert linhas[..j] == linhas;
    var latitude := DecimalPoint(Get(metadados, LatitudeKey, Nan));
    var longitude := DecimalPoint(Get(metadados, LongitudeKey, Nan));
    var codigo := Get(metadados, CodigoKey, Nan);
    r := Some(Station(latitude, longitude, codigo));
  }

  /** One more line updates the dictionary as the loop body does. */
  lemma MetadataStep(linhas: seq<string>, j: nat)
    requires j < |linhas|
    ensures Metadata(linhas[..j + 1]) == if ';' in linhas[j]
      then Metadata(linhas[..j])[Strip(SplitOnce(linhas[j]).0) := Strip(SplitOnce(linhas[j]).1)]
      else Metadata(linhas[..j])
  {
    assert linhas[..j + 1][..j] == linhas[..j];
  }

  // ---------------------------------------------------------------------------
  // Properties of the result

  /** The function fails exactly on files of fewer than eight lines. */
  lemma HeaderNeedsEightLines(arquivo: seq<string>)
    ensures HeaderOf(arquivo).None? <==> |arquivo| < 8
  {
  }

  /** Only the first eight lines are read: whatever follows them is ignored. */
  lemma HeaderReadsEightLines(cabecalho: seq<string>, resto: seq<string>)
    requires |cabecalho| == 8
    ensures HeaderOf(cabecalho + resto) == HeaderOf(cabecalho)
  {
    assert (cabecalho + resto)[..8] == cabecalho[..8];
  }

  /** Each value is what the last header line with its key holds (the
      coordinates with decimal points), or "nan" when no line has the key; the
      coordinates never keep a comma. */
  lemma HeaderValues(arquivo: seq<string>)
    requires |arquivo| >= 8
    ensures var linhas := StripAll(arquivo[..8]);
      var h := HeaderOf(arquivo).value;
      && ',' !in h.latitude && ',' !in h.longitude
      && (!(exists i :: 0 <= i < 8 && ';' in linhas[i] && KeyOf(linhas[i]) == LatitudeKey) ==> h.latitude == Nan)
      && (!(exists i :: 0 <= i < 8 && ';' in linhas[i] && KeyOf(linhas[i]) == LongitudeKey) ==> h.longitude == Nan)
      && (!(exists i :: 0 <= i < 8 && ';' in linhas[i] && KeyOf(linhas[i]) == CodigoKey) ==> h.codigo == Nan)
  {
    var linhas := StripAll(arquivo[..8]);
    var m := Metadata(linhas);
    MetadataKeys(linhas, LatitudeKey);
    MetadataKeys(linhas, LongitudeKey);
    MetadataKeys(linhas, CodigoKey);
    DecimalPointSpec(Get(m, LatitudeKey, Nan));
    DecimalPointSpec(Get(m, LongitudeKey, Nan));
  }

  /** The WMO code is the stripped text after the ';' of the last line whose
      key is "CODIGO (WMO):", unchanged. */
  lemma HeaderCode(arquivo: seq<string>, i: nat)
    requires |arquivo| >= 8 && i < 8
    requires ';' in Strip(arquivo[i]) && KeyOf(Strip(arquivo[i])) == CodigoKey
    requires forall j :: i < j < 8 && ';' in Strip(arquivo[j]) ==> KeyOf(Strip(arquivo[j])) != CodigoKey
    ensures HeaderOf(arquivo).value.codigo == ValueOf(Strip(arquivo[i]))
  {
    var linhas := StripAll(arquivo[..8]);
    MetadataLastWins(linhas, i);
    HeaderCodigo(arquivo);
  }

  lemma HeaderCodigo(arquivo: seq<string>)
    requires |arquivo| >= 8
    ensures HeaderOf(arquivo).value.codigo == Get(Metadata(StripAll(arquivo[..8])), CodigoKey, Nan)
  {
  }
}
