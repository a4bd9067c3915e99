/** Team identity: resolving free-text team references to one canonical code per
    team (app.js `normalizeKey`, `normalizeTeam`, `parseTeamsList`, `getSeasonYear`). */
module Teams {
  import opened Wrappers
  import opened Text

  /** The canonical codes by division, in the order of the synonym table. */
  const NfcEast: set<string> := {"WSH", "DAL", "PHI", "NYG"}
  const NfcNorth: set<string> := {"GB", "CHI", "MIN", "DET"}
  const NfcSouth: set<string> := {"TB", "NO", "ATL", "CAR"}
  const NfcWest: set<string> := {"SF", "LAR", "SEA", "ARI"}
  const AfcEast: set<string> := {"BUF", "NE", "MIA", "NYJ"}
  const AfcNorth: set<string> := {"BAL", "CIN", "CLE", "PIT"}
  const AfcSouth: set<string> := {"IND", "HOU", "JAX", "TEN"}
  const AfcWest: set<string> := {"KC", "DEN", "LAC", "LV"}

  /** The 32 canonical codes: exactly the values of the synonym table. */
  const CanonicalCodes: set<string> := {
    "WSH", "DAL", "PHI", "NYG", "GB", "CHI", "MIN", "DET",
    "TB", "NO", "ATL", "CAR", "SF", "LAR", "SEA", "ARI",
    "BUF", "NE", "MIA", "NYJ", "BAL", "CIN", "CLE", "PIT",
    "IND", "HOU", "JAX", "TEN", "KC", "DEN", "LAC", "LV"
  }

  /** The synonym table of app.js:4-45 (111 lowercase keys). The keys are grouped by
      their first character so that a lookup compares against few literals; within a
      group they keep the order of the source table. No key occurs twice. */
  function Synonym(key: string): (r: Option<string>)
    ensures r.Some? ==> key != [] && 2 <= |r.value| <= 3
  {
    if key == [] then None else
    match key[0]
    case '4' => (
      match key
      case "49ers" => Some("SF")
      case _ => None)
    case 'a' => (
      match key
      case "atl" => Some("ATL")
      case "atlanta" => Some("ATL")
      case "arizona" => Some("ARI")
      case "ari" => Some("ARI")
      case _ => None)
    case 'b' => (
      match key
      case "bears" => Some("CHI")
      case "beras" => Some("CHI")
      case "buccaneers" => Some("TB")
      case "bucs" => Some("TB")
      case "buc" => Some("TB")
      case "bills" => Some("BUF")
      case "buf" => Some("BUF")
      case "buffalo" => Some("BUF")
      case "bal" => Some("BAL")
      case "baltimore" => Some("BAL")
      case "bengals" => Some("CIN")
      case "browns" => Some("CLE")
      case "broncos" => Some("DEN")
      case _ => None)
    case 'c' => (
      match key
      case "commanders" => Some("WSH")
      case "cowboys" => Some("DAL")
      case "chi" => Some("CHI")
      case "chicago" => Some("CHI")
      case "car" => Some("CAR")
      case "carolina" => Some("CAR")
      case "cardinals" => Some("ARI")
      case "cardinasl" => Some("ARI")
      case "cin" => Some("CIN")
      case "cincinnati" => Some("CIN")
      case "cle" => Some("CLE")
      case "cleveland" => Some("CLE")
      case "colts" => Some("IND")
      case "chiefs" => Some("KC")
      case "cheifs" => Some("KC")
      case "chargers" => Some("LAC")
      case _ => None)
    case 'd' => (
      match key
      case "dal" => Some("DAL")
      case "dallas" => Some("DAL")
      case "det" => Some("DET")
      case "detroit" => Some("DET")
      case "dolphins" => Some("MIA")
      case "den" => Some("DEN")
      case "denver" => Some("DEN")
      case _ => None)
    case 'e' => (
      match key
      case "eagles" => Some("PHI")
      case _ => None)
    case 'f' => (
      match key
      case "falcons" => Some("ATL")
      case _ => None)
    case 'g' => (
      match key
      case "giants" => Some("NYG")
      case "gb" => Some("GB")
      case "greenbay" => Some("GB")
      case _ => None)
    case 'h' => (
      match key
      case "hou" => Some("HOU")
      case "houston" => Some("HOU")
      case _ => None)
    case 'i' => (
      match key
      case "ind" => Some("IND")
      case "indy" => Some("IND")
      case _ => None)
    case 'j' => (
      match key
      case "jets" => Some("NYJ")
      case "jaguars" => Some("JAX")
      case "jags" => Some("JAX")
      case "jax" => Some("JAX")
      case "jac" => Some("JAX")
      case "jacksonville" => Some("JAX")
      case _ => None)
    case 'k' => (
      match key
      case "kc" => Some("KC")
      case "kansascity" => Some("KC")
      case _ => None)
    case 'l' => (
      match key
      case "lions" => Some("DET")
      case "lar" => Some("LAR")
      case "la" => Some("LAR")
      case "lac" => Some("LAC")
      case "lv" => Some("LV")
      case _ => None)
    case 'm' => (
      match key
      case "min" => Some("MIN")
      case "minnesota" => Some("MIN")
      case "mia" => Some("MIA")
      case "miami" => Some("MIA")
      case _ => None)
    case 'n' => (
      match key
      case "nyg" => Some("NYG")
      case "newyorkgiants" => Some("NYG")
      case "no" => Some("NO")
      case "nol" => Some("NO")
      case "neworleans" => Some("NO")
      case "niners" => Some("SF")
      case "ne" => Some("NE")
      case "newengland" => Some("NE")
      case "nyj" => Some("NYJ")
      case "newyorkjets" => Some("NYJ")
      case _ => None)
    case 'o' => (
      match key
      case "oak" => Some("LV")
      case "oakland" => Some("LV")
      case _ => None)
    case 'p' => (
      match key
      case "phi" => Some("PHI")
      case "philadelphia" => Some("PHI")
      case "packers" => Some("GB")
      case "panthers" => Some("CAR")
      case "patriots" => Some("NE")
      case "pit" => Some("PIT")
      case "pittsburgh" => Some("PIT")
      case _ => None)
    case 'r' => (
      match key
      case "rams" => Some("LAR")
      case "ravens" => Some("BAL")
      case "raiders" => Some("LV")
      case _ => None)
    case 's' => (
      match key
      case "saints" => Some("NO")
      case "sf" => Some("SF")
      case "sanfrancisco" => Some("SF")
      case "seahawks" => Some("SEA")
      case "sea" => Some("SEA")
      case "seattle" => Some("SEA")
      case "steelers" => Some("PIT")
      case "steelesr" => Some("PIT")
      case "sd" => Some("LAC")
      case "sandiego" => Some("LAC")
      case _ => None)
    case 't' => (
      match key
      case "tb" => Some("TB")
      case "tampa" => Some("TB")
      case "tampabay" => Some("TB")
      case "texans" => Some("HOU")
      case "titans" => Some("TEN")
      case "ten" => Some("TEN")
      case "tennessee" => Some("TEN")
      case _ => None)
    case 'v' => (
      match key
      case "vikings" => Some("MIN")
      case "vegas" => Some("LV")
      case _ => None)
    case 'w' => (
      match key
      case "washington" => Some("WSH")
      case "was" => Some("WSH")
      case "wsh" => Some("WSH")
      case _ => None)
    case _ => None
  }

  /** The alias table of app.js:47-53, in its iteration order: canonical code and the
      upper-case abbreviations that stand for it. */
  const AliasByCanon: seq<(string, seq<string>)> := [
    ("WSH", ["WAS", "WSH"]),
    ("LAC", ["LAC", "SD"]),
    ("LAR", ["LAR", "LA"]),
    ("LV", ["LV", "OAK"]),
    ("JAX", ["JAX", "JAC"])
  ]

  /** The first canonical code whose variants include `upper`. */
  function FindAlias(entries: seq<(string, seq<string>)>, upper: string): (r: Option<string>)
    ensures r.Some? <==> exists i :: 0 <= i < |entries| && upper in entries[i].1
    ensures r.Some? ==> exists i :: 0 <= i < |entries| && upper in entries[i].1 && r.value == entries[i].0
                                  && forall j :: 0 <= j < i ==> upper !in entries[j].1
  {
    if entries == [] then None
    else if upper in entries[0].1 then Some(entries[0].0)
    else
      var r := FindAlias(entries[1..], upper);
      assert forall i :: 1 <= i < |entries| ==> entries[i] == entries[1..][i - 1];
      assert r.Some? ==> exists i :: 0 <= i < |entries| && upper in entries[i].1 && r.value == entries[i].0
                                   && forall j :: 0 <= j < i ==> upper !in entries[j].1 by {
        if r.Some? {
          var k :| 0 <= k < |entries[1..]| && upper in entries[1..][k].1 && r.value == entries[1..][k].0
                   && forall j :: 0 <= j < k ==> upper !in entries[1..][j].1;
          assert forall j :: 0 <= j < k + 1 ==> upper !in entries[j].1;
        }
      }
      r
  }

  /** The alias table has five entries; each canon is one of the 32 codes and is among
      its own variants, and no variant belongs to two entries. */
  lemma AliasTableShape()
    ensures |AliasByCanon| == 5
    ensures forall i :: 0 <= i < |AliasByCanon| ==>
              AliasByCanon[i].0 in CanonicalCodes && AliasByCanon[i].0 in AliasByCanon[i].1
    ensures forall i, j, v :: 0 <= i < j < |AliasByCanon| && v in AliasByCanon[i].1 ==> v !in AliasByCanon[j].1
  {
  }

  /** `normalizeKey`: lowercase, then drop every character outside `[a-z0-9]`. */
  function NormalizeKey(s: string): (r: string)
    ensures forall i :: 0 <= i < |r| ==> IsLowerAlnum(r[i])
    ensures (forall i :: 0 <= i < |s| ==> IsLetterOrDigit(s[i])) ==> r == Lower(s)
  {
    Keep(Lower(s), IsLowerAlnum)
  }

  /** Reference for `normalizeKey`: the ASCII letters and digits of `s`, in order,
      each lower-cased. */
  function KeyOf(s: string): string {
    if s == [] then [] else (if IsLetterOrDigit(s[0]) then [LowerChar(s[0])] else []) + KeyOf(s[1..])
  }

  /** Lower-casing then keeping `[a-z0-9]` is keeping letters and digits, then lower-casing. */
  lemma {:induction false} NormalizeKeyIsKeyOf(s: string)
    ensures NormalizeKey(s) == KeyOf(s)
  {
    if s != [] {
      NormalizeKeyIsKeyOf(s[1..]);
      assert Lower(s)[0] == LowerChar(s[0]) && Lower(s)[1..] == Lower(s[1..]);
      assert IsLowerAlnum(LowerChar(s[0])) <==> IsLetterOrDigit(s[0]);
    }
  }

  /** The key of a concatenation is the concatenation of the keys. */
  lemma NormalizeKeyAppend(a: string, b: string)
    ensures NormalizeKey(a + b) == NormalizeKey(a) + NormalizeKey(b)
  {
    LowerAppend(a, b);
    KeepAppend(Lower(a), Lower(b), IsLowerAlnum);
  }

  /** The key of one character: the lower-cased character when it is an ASCII letter or
      digit, nothing otherwise. */
  lemma NormalizeKeyOfChar(c: char)
    ensures NormalizeKey([c]) == if IsLetterOrDigit(c) then [LowerChar(c)] else []
  {
    assert Lower([c]) == [LowerChar(c)];
  }

  /** Punctuation disappears from the key: "K.C." keys to "kc". */
  lemma NormalizeKeyExample()
    ensures NormalizeKey("K.C.") == "kc"
  {
    var s := "K.C.";
    NormalizeKeyIsKeyOf(s);
    assert s[1..] == ".C." && s[1..][1..] == "C." && s[1..][1..][1..] == ".";
    assert KeyOf(".") == [];
    assert KeyOf("C.") == "c";
    assert KeyOf(".C.") == "c";
  }

  /** The pattern `/^[a-z0-9]{2,4}$/i`. */
  predicate IsShortAlnum(token: string) {
    2 <= |token| <= 4 && forall i :: 0 <= i < |token| ==> IsLetterOrDigit(token[i])
  }

  /** A code carries no separator of a roster list and is never empty. */
  predicate IsListSafe(code: string) {
    code != [] && forall i :: 0 <= i < |code| ==> !IsComma(code[i]) && !IsSpace(code[i])
  }

  /** `normalizeTeam`: synonym lookup on the normalized key; failing that, a raw token of
      2-4 letters or digits is looked up in the alias table or taken upper-cased;
      anything else resolves to nothing. */
  function NormalizeTeam(token: string): (r: Option<string>)
    ensures NormalizeKey(token) == [] ==> r == None
    ensures Synonym(NormalizeKey(token)).Some? && NormalizeKey(token) != [] ==> r == Synonym(NormalizeKey(token))
    ensures r.None? <==> NormalizeKey(token) == [] || (Synonym(NormalizeKey(token)).None? && !IsShortAlnum(token))
    ensures NormalizeKey(token) != [] && Synonym(NormalizeKey(token)).None? && IsShortAlnum(token) ==>
              r == Some(Upper(token))
  {
    var key := NormalizeKey(token);
    if key == [] then None
    else if Synonym(key).Some? then Synonym(key)
    else if IsShortAlnum(token) then
      var upper := Upper(token);
      match FindAlias(AliasByCanon, upper)
      case Some(canon) =>
        AliasTableAgreesWithSynonyms(token);
        assert false;
        Some(canon)
      case None => Some(upper)
    else None
  }

  /** Every value of the synonym table is a canonical code. */
  lemma SynonymValuesAreCanonical(key: string)
    ensures Synonym(key).Some? ==> Synonym(key).value in CanonicalCodes
  {
  }

  lemma CodesAreUpperAlnum()
    ensures forall c | c in CanonicalCodes :: IsShortAlnum(c) && Upper(c) == c
  {
  }

  lemma NfcEastLookups()
    ensures Synonym(Lower("WSH")) == Some("WSH")
    ensures Synonym(Lower("DAL")) == Some("DAL")
    ensures Synonym(Lower("PHI")) == Some("PHI")
    ensures Synonym(Lower("NYG")) == Some("NYG")
  {
    assert Lower("WSH") == "wsh";
    assert Lower("DAL") == "dal";
    assert Lower("PHI") == "phi";
    assert Lower("NYG") == "nyg";
  }

  /** The synonym table maps the lowercase form of each NFC East code to that code. */
  lemma NfcEastSelfLookup()
    ensures forall c | c in NfcEast :: Synonym(Lower(c)) == Some(c)
  {
    NfcEastLookups();
  }

  lemma NfcNorthLookups()
    ensures Synonym(Lower("GB")) == Some("GB")
    ensures Synonym(Lower("CHI")) == Some("CHI")
    ensures Synonym(Lower("MIN")) == Some("MIN")
    ensures Synonym(Lower("DET")) == Some("DET")
  {
    assert Lower("GB") == "gb";
    assert Lower("CHI") == "chi";
    assert Lower("MIN") == "min";
    assert Lower("DET") == "det";
  }

  /** The synonym table maps the lowercase form of each NFC North code to that code. */
  lemma NfcNorthSelfLookup()
    ensures forall c | c in NfcNorth :: Synonym(Lower(c)) == Some(c)
  {
    NfcNorthLookups();
  }

  lemma NfcSouthLookups()
    ensures Synonym(Lower("TB")) == Some("TB")
    ensures Synonym(Lower("NO")) == Some("NO")
    ensures Synonym(Lower("ATL")) == Some("ATL")
    ensures Synonym(Lower("CAR")) == Some("CAR")
  {
    assert Lower("TB") == "tb";
    assert Lower("NO") == "no";
    assert Lower("ATL") == "atl";
    assert Lower("CAR") == "car";
  }

  /** The synonym table maps the lowercase form of each NFC South code to that code. */
  lemma NfcSouthSelfLookup()
    ensures forall c | c in NfcSouth :: Synonym(Lower(c)) == Some(c)
  {
    NfcSouthLookups();
  }

  lemma NfcWestLookups()
    ensures Synonym(Lower("SF")) == Some("SF")
    ensures Synonym(Lower("LAR")) == Some("LAR")
    ensures Synonym(Lower("SEA")) == Some("SEA")
    ensures Synonym(Lower("ARI")) == Some("ARI")
  {
    assert Lower("SF") == "sf";
    assert Lower("LAR") == "lar";
    assert Lower("SEA") == "sea";
    assert Lower("ARI") == "ari";
  }

  /** The synonym table maps the lowercase form of each NFC West code to that code. */
  lemma NfcWestSelfLookup()
    ensures forall c | c in NfcWest :: Synonym(Lower(c)) == Some(c)
  {
    NfcWestLookups();
  }

  lemma AfcEastLookups()
    ensures Synonym(Lower("BUF")) == Some("BUF")
    ensures Synonym(Lower("NE")) == Some("NE")
    ensures Synonym(Lower("MIA")) == Some("MIA")
    ensures Synonym(Lower("NYJ")) == Some("NYJ")
  {
    assert Lower("BUF") == "buf";
    assert Lower("NE") == "ne";
    assert Lower("MIA") == "mia";
    assert Lower("NYJ") == "nyj";
  }

  /** The synonym table maps the lowercase form of each AFC East code to that code. */
  lemma AfcEastSelfLookup()
    ensures forall c | c in AfcEast :: Synonym(Lower(c)) == Some(c)
  {
    AfcEastLookups();
  }

  lemma AfcNorthLookups()
    ensures Synonym(Lower("BAL")) == Some("BAL")
    ensures Synonym(Lower("CIN")) == Some("CIN")
    ensures Synonym(Lower("CLE")) == Some("CLE")
    ensures Synonym(Lower("PIT")) == Some("PIT")
  {
    assert Lower("BAL") == "bal";
    assert Lower("CIN") == "cin";
    assert Lower("CLE") == "cle";
    assert Lower("PIT") == "pit";
  }

  /** The synonym table maps the lowercase form of each AFC North code to that code. */
  lemma AfcNorthSelfLookup()
    ensures forall c | c in AfcNorth :: Synonym(Lower(c)) == Some(c)
  {
    AfcNorthLookups();
  }

  lemma AfcSouthLookups()
    ensures Synonym(Lower("IND")) == Some("IND")
    ensures Synonym(Lower("HOU")) == Some("HOU")
    ensures Synonym(Lower("JAX")) == Some("JAX")
    ensures Synonym(Lower("TEN")) == Some("TEN")
  {
    assert Lower("IND") == "ind";
    assert Lower("HOU") == "hou";
    assert Lower("JAX") == "jax";
    assert Lower("TEN") == "ten";
  }

  /** The synonym table maps the lowercase form of each AFC South code to that code. */
  lemma AfcSouthSelfLookup()
    ensures forall c | c in AfcSouth :: Synonym(Lower(c)) == Some(c)
  {
    AfcSouthLookups();
  }

  lemma AfcWestLookups()
    ensures Synonym(Lower("KC")) == Some("KC")
    ensures Synonym(Lower("DEN")) == Some("DEN")
    ensures Synonym(Lower("LAC")) == Some("LAC")
    ensures Synonym(Lower("LV")) == Some("LV")
  {
    assert Lower("KC") == "kc";
    assert Lower("DEN") == "den";
    assert Lower("LAC") == "lac";
    assert Lower("LV") == "lv";
  }

  /** The synonym table maps the lowercase form of each AFC West code to that code. */
  lemma AfcWestSelfLookup()
    ensures forall c | c in AfcWest :: Synonym(Lower(c)) == Some(c)
  {
    AfcWestLookups();
  }

  /** A code that is its own upper form and its own synonym resolves to itself. */
  lemma ResolvesToItself(c: string)
    requires IsShortAlnum(c) && Upper(c) == c && Synonym(Lower(c)) == Some(c)
    ensures NormalizeTeam(c) == Some(c)
  {
    assert NormalizeKey(c) == Lower(c);
  }

  /** The synonym table maps the lower-case form of every canonical code to that code. */
  lemma CanonicalCodesAreOwnSynonyms()
    ensures forall c | c in CanonicalCodes :: Synonym(Lower(c)) == Some(c)
  {
    NfcEastSelfLookup();
    NfcNorthSelfLookup();
    NfcSouthSelfLookup();
    NfcWestSelfLookup();
    AfcEastSelfLookup();
    AfcNorthSelfLookup();
    AfcSouthSelfLookup();
    AfcWestSelfLookup();
    forall c | c in CanonicalCodes
      ensures Synonym(Lower(c)) == Some(c)
    {
      assert c in NfcEast + NfcNorth + NfcSouth + NfcWest + AfcEast + AfcNorth + AfcSouth + AfcWest;
    }
  }

  /** Every canonical code resolves to itself. */
  lemma CanonicalCodesResolveToThemselves()
    ensures forall c | c in CanonicalCodes :: NormalizeTeam(c) == Some(c)
  {
    CodesAreUpperAlnum();
    CanonicalCodesAreOwnSynonyms();
    forall c | c in CanonicalCodes
      ensures NormalizeTeam(c) == Some(c)
    {
      ResolvesToItself(c);
    }
  }

  /** Each variant in the alias table, lower-cased, is a synonym key for its canonical code. */
  lemma AliasVariantIsSynonym(i: int, v: string)
    requires 0 <= i < |AliasByCanon| && v in AliasByCanon[i].1
    ensures Synonym(Lower(v)) == Some(AliasByCanon[i].0)
  {
    if i == 0 {
      assert v == "WAS" || v == "WSH";
      assert Lower("WAS") == "was" && Lower("WSH") == "wsh";
    } else if i == 1 {
      assert v == "LAC" || v == "SD";
      assert Lower("LAC") == "lac" && Lower("SD") == "sd";
    } else if i == 2 {
      assert v == "LAR" || v == "LA";
      assert Lower("LAR") == "lar" && Lower("LA") == "la";
    } else if i == 3 {
      assert v == "LV" || v == "OAK";
      assert Lower("LV") == "lv" && Lower("OAK") == "oak";
    } else {
      assert v == "JAX" || v == "JAC";
      assert Lower("JAX") == "jax" && Lower("JAC") == "jac";
    }
  }

  /** Every alias of the alias table is already a synonym key for the same canonical
      code, so the alias branch of `normalizeTeam` can never change the result: when
      it would find a canonical code, the synonym lookup has already returned it. */
  lemma AliasTableAgreesWithSynonyms(token: string)
    requires IsShortAlnum(token)
    requires FindAlias(AliasByCanon, Upper(token)).Some?
    ensures Synonym(NormalizeKey(token)) == FindAlias(AliasByCanon, Upper(token))
  {
    var upper := Upper(token);
    var i :| 0 <= i < |AliasByCanon| && upper in AliasByCanon[i].1
             && FindAlias(AliasByCanon, upper).value == AliasByCanon[i].0;
    AliasVariantIsSynonym(i, upper);
    assert NormalizeKey(token) == Lower(token);
    LowerOfUpper(token);
    assert Lower(token) == Lower(upper);
  }

  /** Which resolution applies when: a synonym hit gives a canonical code; a synonym miss
      on a 2-4 character token gives that token upper-cased, which is never a canonical
      code; so a resolved code is canonical exactly when the synonym table knew the key. */
  lemma ResolutionCases(token: string)
    ensures var key := NormalizeKey(token);
            key != [] && Synonym(key).Some? ==> NormalizeTeam(token).value in CanonicalCodes
    ensures var key := NormalizeKey(token);
            key != [] && Synonym(key).None? && IsShortAlnum(token) ==>
              NormalizeTeam(token) == Some(Upper(token)) && Upper(token) !in CanonicalCodes
    ensures NormalizeTeam(token).Some? ==>
              (NormalizeTeam(token).value in CanonicalCodes <==> Synonym(NormalizeKey(token)).Some?)
    ensures NormalizeTeam(token).Some? ==>
              NormalizeTeam(token).value in CanonicalCodes
              || (IsShortAlnum(token) && Synonym(NormalizeKey(token)).None?
                  && NormalizeTeam(token).value == Upper(token))
  {
    var key := NormalizeKey(token);
    SynonymValuesAreCanonical(key);
    if key != [] && Synonym(key).None? && IsShortAlnum(token) && Upper(token) in CanonicalCodes {
      CanonicalCodesAreOwnSynonyms();
      LowerOfUpper(token);
      assert false;
    }
  }

  /** A resolved code is never empty and holds no comma or white space, so it survives
      being written back into a comma-separated roster list. */
  lemma ResolvedIsListSafe(token: string)
    ensures NormalizeTeam(token).Some? ==> IsListSafe(NormalizeTeam(token).value)
  {
    ResolutionCases(token);
    CodesAreUpperAlnum();
  }

  /** Resolution is idempotent: resolving a resolved code gives the same code. */
  lemma NormalizeTeamIdempotent(token: string)
    ensures NormalizeTeam(token).Some? ==> NormalizeTeam(NormalizeTeam(token).value) == NormalizeTeam(token)
  {
    ResolutionCases(token);
    if NormalizeTeam(token).Some? {
      var c := NormalizeTeam(token).value;
      if c in CanonicalCodes {
        CanonicalCodesResolveToThemselves();
      } else {
        // c is the upper-cased token, whose key is the token's key: not a synonym.
        UpperIdempotent(token);
        LowerOfUpper(token);
        assert NormalizeKey(token) == Lower(token);
        assert IsShortAlnum(c);
        assert NormalizeKey(c) == Lower(c) == Lower(token);
        if FindAlias(AliasByCanon, Upper(c)).Some? {
          AliasTableAgreesWithSynonyms(c);
          assert false;
        }
      }
    }
  }

  /** One comma-separated part of a roster list broken into words: `part.trim()`
      split on runs of white space, or nothing when the trimmed part is empty. Both
      equal the non-empty pieces between single white-space characters. */
  function Words(part: string): (r: seq<string>)
    ensures forall k :: 0 <= k < |r| ==> r[k] != []
    ensures forall k, i :: 0 <= k < |r| && 0 <= i < |r[k]| ==> !IsSpace(r[k][i])
    ensures forall k, i :: 0 <= k < |r| && 0 <= i < |r[k]| ==> r[k][i] in part
    ensures Flatten(r) == Remove(part, IsSpace)
  {
    var pieces := Split(part, IsSpace);
    var r := NonEmpty(pieces);
    RemoveMembers(part, IsSpace);
    forall k, i | 0 <= k < |r| && 0 <= i < |r[k]|
      ensures !IsSpace(r[k][i]) && r[k][i] in part
    {
      assert r[k] in pieces;
      var j :| 0 <= j < |pieces| && pieces[j] == r[k];
      FlattenContains(pieces, j, i);
    }
    r
  }

  /** A character of one piece is a character of their concatenation. */
  lemma {:induction false} FlattenContains(pieces: seq<string>, j: nat, i: nat)
    requires j < |pieces| && i < |pieces[j]|
    ensures pieces[j][i] in Flatten(pieces)
  {
    if j > 0 {
      FlattenContains(pieces[1..], j - 1, i);
    }
  }

  /** `flatMap` of `Words` over the comma-separated parts. */
  function WordsOfParts(parts: seq<string>): (r: seq<string>)
    ensures forall k :: 0 <= k < |r| ==> r[k] != []
    ensures forall k, i :: 0 <= k < |r| && 0 <= i < |r[k]| ==> !IsSpace(r[k][i])
    ensures forall k, i :: 0 <= k < |r| && 0 <= i < |r[k]| ==> r[k][i] in Flatten(parts)
    ensures Flatten(r) == Remove(Flatten(parts), IsSpace)
  {
    if parts == [] then []
    else
      var w := Words(parts[0]);
      var rest := WordsOfParts(parts[1..]);
      ConsCharsComeFromParts(parts[0], Flatten(parts[1..]), w, rest);
      ConsCoversParts(parts[0], Flatten(parts[1..]), w, rest);
      w + rest
  }

  /** The characters of the words of a first part and of the rest come from their
      concatenation. */
  lemma ConsCharsComeFromParts(head: string, tail: string, w: seq<string>, rest: seq<string>)
    requires forall k, i :: 0 <= k < |w| && 0 <= i < |w[k]| ==> w[k][i] in head
    requires forall k, i :: 0 <= k < |rest| && 0 <= i < |rest[k]| ==> rest[k][i] in tail
    ensures forall k, i :: 0 <= k < |w + rest| && 0 <= i < |(w + rest)[k]| ==> (w + rest)[k][i] in head + tail
  {
    forall k, i | 0 <= k < |w + rest| && 0 <= i < |(w + rest)[k]|
      ensures (w + rest)[k][i] in head + tail
    {
      if k < |w| {
        assert (w + rest)[k][i] in head;
      } else {
        assert (w + rest)[k] == rest[k - |w|];
        assert (w + rest)[k][i] in tail;
      }
    }
  }

  /** Words that cover a first part and a rest cover their concatenation. */
  lemma ConsCoversParts(head: string, tail: string, w: seq<string>, rest: seq<string>)
    requires Flatten(w) == Remove(head, IsSpace) && Flatten(rest) == Remove(tail, IsSpace)
    ensures Flatten(w + rest) == Remove(head + tail, IsSpace)
  {
    FlattenAppend(w, rest);
    RemoveAppend(head, tail, IsSpace);
  }

  lemma {:induction false} WordsOfPartsAppend(a: seq<string>, b: seq<string>)
    ensures WordsOfParts(a + b) == WordsOfParts(a) + WordsOfParts(b)
  {
    if a == [] {
      assert a + b == b;
    } else {
      assert (a + b)[0] == a[0] && (a + b)[1..] == a[1..] + b;
      WordsOfPartsAppend(a[1..], b);
    }
  }

  /** The tokens of a roster list: split on commas, each part split into words, empty
      strings dropped. A token is never empty and holds no comma or white space. */
  function Tokens(input: string): (r: seq<string>)
    ensures forall k :: 0 <= k < |r| ==> IsListSafe(r[k])
    ensures Flatten(r) == Remove(Remove(input, IsComma), IsSpace)
  {
    var parts := Split(input, IsComma);
    var r := NonEmpty(WordsOfParts(parts));
    forall k | 0 <= k < |r|
      ensures IsListSafe(r[k])
    {
      assert r[k] in WordsOfParts(parts);
      forall i | 0 <= i < |r[k]|
        ensures !IsComma(r[k][i])
      {
        assert r[k][i] in Remove(input, IsComma);
      }
    }
    r
  }

  /** A part without white space is one word, or none when it is empty. */
  lemma WordsOfSpaceFree(s: string)
    requires forall i :: 0 <= i < |s| ==> !IsSpace(s[i])
    ensures Words(s) == if s == [] then [] else [s]
  {
    SplitWithoutSeparator(s, IsSpace);
  }

  /** A white-space character ends the word before it, if any, and the rest of the
      part is broken up on its own. */
  lemma WordsAtSpace(a: string, c: char, b: string)
    requires forall i :: 0 <= i < |a| ==> !IsSpace(a[i])
    requires IsSpace(c)
    ensures Words(a + [c] + b) == (if a == [] then [] else [a]) + Words(b)
  {
    SplitAtSeparator(a, c, b, IsSpace);
    NonEmptyAppend([a], Split(b, IsSpace));
  }

  /** Input without commas is a single part: its tokens are its words. */
  lemma TokensWithoutComma(s: string)
    requires forall i :: 0 <= i < |s| ==> !IsComma(s[i])
    ensures Tokens(s) == Words(s)
  {
    SplitWithoutSeparator(s, IsComma);
    assert WordsOfParts([s]) == Words(s) + WordsOfParts([]);
  }

  /** A comma ends a part: the tokens are that part's words followed by the tokens of
      the rest. */
  lemma TokensAtComma(a: string, c: char, b: string)
    requires forall i :: 0 <= i < |a| ==> !IsComma(a[i])
    requires IsComma(c)
    ensures Tokens(a + [c] + b) == Words(a) + Tokens(b)
  {
    var rest := Split(b, IsComma);
    SplitAtSeparator(a, c, b, IsComma);
    assert ([a] + rest)[0] == a && ([a] + rest)[1..] == rest;
    assert WordsOfParts([a] + rest) == Words(a) + WordsOfParts(rest);
    NonEmptyAppend(Words(a), WordsOfParts(rest));
  }

  /** The codes the tokens resolve to under `resolve`, in token order (repeats kept,
      misses and empty codes dropped). */
  function Resolved(tokens: seq<string>, resolve: string -> Option<string>): (r: seq<string>)
    ensures forall x | x in r :: x != [] && exists t | t in tokens :: resolve(t) == Some(x)
  {
    if tokens == [] then []
    else
      var rest := Resolved(tokens[1..], resolve);
      var t := resolve(tokens[0]);
      assert forall u | u in tokens[1..] :: u in tokens;
      if t.Some? && t.value != [] then [t.value] + rest else rest
  }

  predicate Distinct<T(==)>(xs: seq<T>) {
    forall i, j :: 0 <= i < j < |xs| ==> xs[i] != xs[j]
  }

  /** First-seen de-duplication of `xs` appended to `acc`. */
  function DedupInto(xs: seq<string>, acc: seq<string>): seq<string> {
    if xs == [] then acc
    else DedupInto(xs[1..], if xs[0] in acc then acc else acc + [xs[0]])
  }

  /** The first `n` elements, or all of them when there are fewer. */
  function Take<T>(xs: seq<T>, n: nat): seq<T> {
    if |xs| <= n then xs else xs[..n]
  }

  /** The loop of `parseTeamsList`: resolve each token, append the code unless it is
      missing, empty or already there, and stop as soon as four codes are collected. */
  function Collect(tokens: seq<string>, out: seq<string>, resolve: string -> Option<string>): (r: seq<string>)
    requires |out| < 4 && Distinct(out)
    ensures |out| <= |r| <= 4 && Distinct(r)
    ensures r[..|out|] == out
    ensures forall k :: |out| <= k < |r| ==> r[k] != [] && exists t | t in tokens :: resolve(t) == Some(r[k])
    decreases |tokens|
  {
    if tokens == [] then out
    else
      var t := resolve(tokens[0]);
      var out' := if t.Some? && t.value != [] && t.value !in out then out + [t.value] else out;
      assert Distinct(out');
      if |out'| == 4 then out'
      else
        var r := Collect(tokens[1..], out', resolve);
        assert r[..|out|] == r[..|out'|][..|out|];
        assert forall u | u in tokens[1..] :: u in tokens;
        r
  }

  /** `parseTeamsList`: at most four distinct codes, each the resolution of one of the
      input's tokens. */
  function ParseTeamsList(input: string): (r: seq<string>)
    ensures |r| <= 4 && Distinct(r)
    ensures forall k :: 0 <= k < |r| ==> exists t | t in Tokens(input) :: NormalizeTeam(t) == Some(r[k])
  {
    Collect(Tokens(input), [], NormalizeTeam)
  }

  /** The de-duplicated list starts with the accumulator it was given. */
  lemma {:induction false} DedupIntoExtends(xs: seq<string>, acc: seq<string>)
    ensures |acc| <= |DedupInto(xs, acc)| && DedupInto(xs, acc)[..|acc|] == acc
  {
    if xs != [] {
      var acc' := if xs[0] in acc then acc else acc + [xs[0]];
      DedupIntoExtends(xs[1..], acc');
      assert DedupInto(xs, acc)[..|acc|] == DedupInto(xs, acc)[..|acc'|][..|acc|];
    }
  }

  /** The early exit of the loop changes nothing but the length: the loop yields the
      first four codes of the first-seen de-duplication of all resolved tokens. */
  lemma {:induction false} CollectIsDedupTake(tokens: seq<string>, out: seq<string>, resolve: string -> Option<string>)
    requires |out| < 4 && Distinct(out)
    ensures Collect(tokens, out, resolve) == Take(DedupInto(Resolved(tokens, resolve), out), 4)
    decreases |tokens|
  {
    if tokens != [] {
      var t := resolve(tokens[0]);
      var out' := if t.Some? && t.value != [] && t.value !in out then out + [t.value] else out;
      var rest := Resolved(tokens[1..], resolve);
      assert DedupInto(Resolved(tokens, resolve), out) == DedupInto(rest, out') by {
        if t.Some? && t.value != [] {
          assert Resolved(tokens, resolve) == [t.value] + rest;
          assert ([t.value] + rest)[1..] == rest;
        }
      }
      if |out'| == 4 {
        DedupIntoExtends(rest, out');
      } else {
        assert Distinct(out');
        CollectIsDedupTake(tokens[1..], out', resolve);
      }
    }
  }

  /** `parseTeamsList` keeps the first four distinct codes in first-seen token order. */
  lemma ParseTeamsListFirstSeen(input: string)
    ensures ParseTeamsList(input) == Take(DedupInto(Resolved(Tokens(input), NormalizeTeam), []), 4)
  {
    CollectIsDedupTake(Tokens(input), [], NormalizeTeam);
  }

  lemma {:induction false} WordsOfPadded(p: string, x: string)
    requires forall i :: 0 <= i < |p| ==> IsSpace(p[i])
    requires IsListSafe(x)
    ensures NonEmpty(Split(p + x, IsSpace)) == [x]
  {
    if p == [] {
      assert p + x == x;
      SplitWithoutSeparator(x, IsSpace);
    } else {
      assert p + x == [] + [p[0]] + (p[1..] + x);
      SplitAtSeparator([], p[0], p[1..] + x, IsSpace);
      WordsOfPadded(p[1..], x);
    }
  }

  lemma WordsOfPartsCons(a: string, b: seq<string>)
    ensures WordsOfParts([a] + b) == Words(a) + WordsOfParts(b)
  {
    assert ([a] + b)[0] == a && ([a] + b)[1..] == b;
  }

  /** A code preceded by white space is one word. */
  lemma PaddedWord(p: string, x: string)
    requires forall i :: 0 <= i < |p| ==> IsSpace(p[i])
    requires IsListSafe(x)
    ensures Words(p + x) == [x]
  {
    WordsOfPadded(p, x);
  }

  /** The first element of a joined list, the comma after it, and the rest. */
  lemma JoinStep(p: string, xs: seq<string>)
    requires |xs| >= 2
    ensures p + Join(xs, ", ") == (p + xs[0]) + [','] + (" " + Join(xs[1..], ", "))
  {
  }

  /** A padded code holds no comma, so it is a single part. */
  lemma SplitOfPadded(p: string, x: string)
    requires forall i :: 0 <= i < |p| ==> IsSpace(p[i])
    requires IsListSafe(x)
    ensures Split(p + x, IsComma) == [p + x]
  {
    SplitWithoutSeparator(p + x, IsComma);
  }

  lemma WordsOfOnePart(part: string)
    ensures WordsOfParts([part]) == Words(part)
  {
    WordsOfPartsCons(part, []);
    assert [part] + [] == [part];
  }

  /** The comma after a padded code closes the first part. */
  lemma SplitAfterPadded(p: string, x: string, tail: string)
    requires forall i :: 0 <= i < |p| ==> IsSpace(p[i])
    requires IsListSafe(x)
    ensures Split((p + x) + [','] + tail, IsComma) == [p + x] + Split(tail, IsComma)
  {
    SplitAtSeparator(p + x, ',', tail, IsComma);
  }

  /** A single padded code, with no comma, is one part holding one word. */
  lemma WordsOfSingle(p: string, x: string)
    requires forall i :: 0 <= i < |p| ==> IsSpace(p[i])
    requires IsListSafe(x)
    ensures WordsOfParts(Split(p + Join([x], ", "), IsComma)) == [x]
  {
    assert Join([x], ", ") == x;
    SplitOfPadded(p, x);
    WordsOfOnePart(p + x);
    PaddedWord(p, x);
  }

  /** Splitting a list joined with ", " gives back its elements, word for word. */
  lemma {:induction false} WordsOfJoin(p: string, xs: seq<string>)
    requires forall i :: 0 <= i < |p| ==> IsSpace(p[i])
    requires xs != [] && forall k :: 0 <= k < |xs| ==> IsListSafe(xs[k])
    ensures WordsOfParts(Split(p + Join(xs, ", "), IsComma)) == xs
    decreases |xs|
  {
    if |xs| == 1 {
      WordsOfSingle(p, xs[0]);
    } else {
      WordsOfJoin(" ", xs[1..]);
      WordsOfJoinCons(p, xs);
    }
  }

  /** One step of `WordsOfJoin`: the first code and its comma, then the rest. */
  lemma WordsOfJoinCons(p: string, xs: seq<string>)
    requires forall i :: 0 <= i < |p| ==> IsSpace(p[i])
    requires |xs| >= 2 && IsListSafe(xs[0])
    requires WordsOfParts(Split(" " + Join(xs[1..], ", "), IsComma)) == xs[1..]
    ensures WordsOfParts(Split(p + Join(xs, ", "), IsComma)) == xs
  {
    SplitOfJoin(p, xs);
    ConsWords(p, xs[0], Split(" " + Join(xs[1..], ", "), IsComma), xs[1..]);
    HeadAndTail(xs);
  }

  /** The first padded code of a joined list is one part, before the parts of the rest. */
  lemma SplitOfJoin(p: string, xs: seq<string>)
    requires forall i :: 0 <= i < |p| ==> IsSpace(p[i])
    requires |xs| >= 2 && IsListSafe(xs[0])
    ensures Split(p + Join(xs, ", "), IsComma) == [p + xs[0]] + Split(" " + Join(xs[1..], ", "), IsComma)
  {
    JoinStep(p, xs);
    SplitAfterPadded(p, xs[0], " " + Join(xs[1..], ", "));
  }

  /** A padded code followed by parts whose words are `rest`. */
  lemma ConsWords(p: string, x: string, parts: seq<string>, rest: seq<string>)
    requires forall i :: 0 <= i < |p| ==> IsSpace(p[i])
    requires IsListSafe(x) && WordsOfParts(parts) == rest
    ensures WordsOfParts([p + x] + parts) == [x] + rest
  {
    PaddedWord(p, x);
    WordsOfPartsCons(p + x, parts);
  }

  /** Tokenizing a list of codes joined with ", " gives back the codes. */
  lemma TokensOfJoin(xs: seq<string>)
    requires forall k :: 0 <= k < |xs| ==> IsListSafe(xs[k])
    ensures Tokens(Join(xs, ", ")) == xs
  {
    if xs == [] {
      assert Split("", IsComma) == [[]];
      assert Split("", IsSpace) == [[]];
      assert WordsOfParts([[]]) == Words([]) + WordsOfParts([]);
    } else {
      WordsOfJoin("", xs);
      assert "" + Join(xs, ", ") == Join(xs, ", ");
    }
  }

  /** Codes that resolve to themselves and are already distinct pass the loop unchanged. */
  lemma {:induction false} CollectOfFixedCodes(xs: seq<string>, out: seq<string>, resolve: string -> Option<string>)
    requires |out| < 4 && |out| + |xs| <= 4 && Distinct(out) && Distinct(out + xs)
    requires forall k :: 0 <= k < |xs| ==> xs[k] != [] && resolve(xs[k]) == Some(xs[k])
    ensures Collect(xs, out, resolve) == out + xs
    decreases |xs|
  {
    if xs == [] {
      assert out + xs == out;
    } else {
      assert xs[0] == (out + xs)[|out|];
      assert xs[0] !in out by {
        forall i | 0 <= i < |out| ensures out[i] != xs[0] {
          assert out[i] == (out + xs)[i];
        }
      }
      var out' := out + [xs[0]];
      assert out + xs == out' + xs[1..];
      assert Distinct(out') by {
        assert forall i :: 0 <= i < |out'| ==> out'[i] == (out + xs)[i];
      }
      if |out'| < 4 {
        CollectOfFixedCodes(xs[1..], out', resolve);
      }
    }
  }

  /** Distinct codes that a resolution maps to themselves pass the loop unchanged. */
  lemma CollectOfFixedList(r: seq<string>, resolve: string -> Option<string>)
    requires |r| <= 4 && Distinct(r)
    requires forall k :: 0 <= k < |r| ==> r[k] != [] && resolve(r[k]) == Some(r[k])
    ensures Collect(r, [], resolve) == r
  {
    assert [] + r == r;
    if |r| > 0 {
      CollectOfFixedCodes(r, [], resolve);
    }
  }

  /** Distinct codes that resolve to themselves survive being joined and re-parsed. */
  lemma ReparseFixedCodes(r: seq<string>)
    requires |r| <= 4 && Distinct(r)
    requires forall k :: 0 <= k < |r| ==> IsListSafe(r[k]) && NormalizeTeam(r[k]) == Some(r[k])
    ensures ParseTeamsList(Join(r, ", ")) == r
  {
    TokensOfJoin(r);
    CollectOfFixedList(r, NormalizeTeam);
  }

  /** The league dialog writes a roster back as `teams.join(', ')` and reads it with
      `parseTeamsList`: that round trip returns the roster unchanged. */
  lemma ParseTeamsListRoundTrip(input: string)
    ensures ParseTeamsList(Join(ParseTeamsList(input), ", ")) == ParseTeamsList(input)
  {
    ParsedCodesAreFixed(input);
    ReparseFixedCodes(ParseTeamsList(input));
  }

  /** Every code of a parsed list is list-safe and resolves to itself. */
  lemma ParsedCodesAreFixed(input: string)
    ensures var r := ParseTeamsList(input);
            forall k :: 0 <= k < |r| ==> IsListSafe(r[k]) && NormalizeTeam(r[k]) == Some(r[k])
  {
    var r := ParseTeamsList(input);
    forall k | 0 <= k < |r|
      ensures IsListSafe(r[k]) && NormalizeTeam(r[k]) == Some(r[k])
    {
      var t :| t in Tokens(input) && NormalizeTeam(t) == Some(r[k]);
      ResolvedIsFixed(t);
    }
  }

  /** A resolved code is list-safe and resolves to itself. */
  lemma ResolvedIsFixed(t: string)
    requires NormalizeTeam(t).Some?
    ensures IsListSafe(NormalizeTeam(t).value) && NormalizeTeam(NormalizeTeam(t).value) == NormalizeTeam(t)
  {
    ResolvedIsListSafe(t);
    NormalizeTeamIdempotent(t);
  }

  /** Tokens that agree after normalization and hit the synonym table resolve alike:
      lookup ignores case, spaces and punctuation. */
  lemma SynonymLookupIgnoresCaseAndPunctuation(a: string, b: string)
    requires NormalizeKey(a) == NormalizeKey(b) && Synonym(NormalizeKey(a)).Some?
    ensures NormalizeTeam(a) == NormalizeTeam(b) == Synonym(NormalizeKey(a))
  {
  }

  /** `getSeasonYear` on an explicit (month, year) clock reading: the season is
      named after the year of the September it started in. */
  function SeasonYear(month: int, year: int): (r: int)
    ensures r == year || r == year - 1
    ensures r == year <==> month >= 9
  {
    if month >= 9 then year else year - 1
  }

  /** For a calendar month, the season's September is at or before the reading and
      the next season's September is after it. */
  lemma SeasonYearBracketsReading(month: int, year: int)
    requires 1 <= month <= 12
    ensures var r := SeasonYear(month, year);
            r * 12 + 9 <= year * 12 + month < (r + 1) * 12 + 9
  {
  }
}
