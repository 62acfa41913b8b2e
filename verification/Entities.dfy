/** Character entities (mxml-entity.c): the names the writer uses, the sorted table the reader
    looks names up in, and the binary search over it. */
module Entities {
  import opened CStrings

  datatype Entity = Entity(name: string, val: int)

  // -- Sorted tables --------------------------------------------------------------------

  /** `a` precedes `b` in `strcmp` order from position `k` on (they agree before it). */
  predicate LessFrom(a: string, b: string, k: nat)
    decreases |b| - k
  {
    k < |b| && (k >= |a| || a[k] < b[k] || (a[k] == b[k] && LessFrom(a, b, k + 1)))
  }

  lemma {:induction false} LessFromIsStrCmp(a: string, b: string, k: nat)
    requires LessFrom(a, b, k)
    ensures k <= |a| ==> StrCmp(a[k..], b[k..]) < 0
    decreases |b| - k
  {
    if k < |a| && a[k] == b[k] {
      LessFromIsStrCmp(a, b, k + 1);
      assert a[k..][1..] == a[k + 1..] && b[k..][1..] == b[k + 1..];
    }
  }

  /** Each name is strictly before the next one. */
  predicate Ascending(t: seq<Entity>) {
    forall i {:trigger t[i]} :: 0 < i < |t| ==> LessFrom(t[i - 1].name, t[i].name, 0)
  }

  type Sorted = t: seq<Entity> | Ascending(t)

  lemma {:induction false} SortedByStrCmp(t: Sorted, i: nat, j: nat)
    requires i < j < |t|
    ensures StrCmp(t[i].name, t[j].name) < 0
    decreases j - i
  {
    assert t[j - 1 + 1] == t[j];
    LessFromIsStrCmp(t[j - 1].name, t[j].name, 0);
    assert t[j - 1].name[0..] == t[j - 1].name && t[j].name[0..] == t[j].name;
    if i < j - 1 {
      SortedByStrCmp(t, i, j - 1);
      StrCmpTransitive(t[i].name, t[j - 1].name, t[j].name);
    }
  }

  lemma JoinAscends(a: Sorted, b: Sorted)
    requires a != [] && b != [] && LessFrom(a[|a| - 1].name, b[0].name, 0)
    ensures Ascending(a + b)
  {
    forall i {:trigger (a + b)[i]} | 0 < i < |a + b|
      ensures LessFrom((a + b)[i - 1].name, (a + b)[i].name, 0)
    {
      if i < |a| {
        assert (a + b)[i - 1] == a[i - 1] && (a + b)[i] == a[i];
      } else if i > |a| {
        assert (a + b)[i - 1] == b[i - |a| - 1] && (a + b)[i] == b[i - |a|];
      }
    }
  }

  function Join(a: Sorted, b: Sorted): (r: Sorted)
    requires a != [] && b != [] && LessFrom(a[|a| - 1].name, b[0].name, 0)
    ensures r == a + b
  {
    JoinAscends(a, b);
    a + b
  }

  // -- The table, five rows at a time ---------------------------------------------------------

  const T0: Sorted :=
    [Entity("AElig", 198), Entity("Aacute", 193), Entity("Acirc", 194), Entity("Agrave", 192), Entity("Alpha", 913)]
  const T1: Sorted :=
    [Entity("Aring", 197), Entity("Atilde", 195), Entity("Auml", 196), Entity("Beta", 914), Entity("Ccedil", 199)]
  const T2: Sorted :=
    [Entity("Chi", 935), Entity("Dagger", 8225), Entity("Delta", 916), Entity("Dstrok", 208), Entity("ETH", 208)]
  const T3: Sorted :=
    [Entity("Eacute", 201), Entity("Ecirc", 202), Entity("Egrave", 200), Entity("Epsilon", 917), Entity("Eta", 919)]
  const T4: Sorted :=
    [Entity("Euml", 203), Entity("Gamma", 915), Entity("Iacute", 205), Entity("Icirc", 206), Entity("Igrave", 204)]
  const T5: Sorted :=
    [Entity("Iota", 921), Entity("Iuml", 207), Entity("Kappa", 922), Entity("Lambda", 923), Entity("Mu", 924)]
  const T6: Sorted :=
    [Entity("Ntilde", 209), Entity("Nu", 925), Entity("OElig", 338), Entity("Oacute", 211), Entity("Ocirc", 212)]
  const T7: Sorted :=
    [Entity("Ograve", 210), Entity("Omega", 937), Entity("Omicron", 927), Entity("Oslash", 216), Entity("Otilde", 213)]
  const T8: Sorted :=
    [Entity("Ouml", 214), Entity("Phi", 934), Entity("Pi", 928), Entity("Prime", 8243), Entity("Psi", 936)]
  const T9: Sorted :=
    [Entity("Rho", 929), Entity("Scaron", 352), Entity("Sigma", 931), Entity("THORN", 222), Entity("Tau", 932)]
  const T10: Sorted :=
    [Entity("Theta", 920), Entity("Uacute", 218), Entity("Ucirc", 219), Entity("Ugrave", 217), Entity("Upsilon", 933)]
  const T11: Sorted :=
    [Entity("Uuml", 220), Entity("Xi", 926), Entity("Yacute", 221), Entity("Yuml", 376), Entity("Zeta", 918)]
  const T12: Sorted :=
    [Entity("aacute", 225), Entity("acirc", 226), Entity("acute", 180), Entity("aelig", 230), Entity("agrave", 224)]
  const T13: Sorted :=
    [Entity("alefsym", 8501), Entity("alpha", 945), Entity("amp", 38), Entity("and", 8743), Entity("ang", 8736)]
  const T14: Sorted :=
    [Entity("apos", 39), Entity("aring", 229), Entity("asymp", 8776), Entity("atilde", 227), Entity("auml", 228)]
  const T15: Sorted :=
    [Entity("bdquo", 8222), Entity("beta", 946), Entity("brkbar", 166), Entity("brvbar", 166), Entity("bull", 8226)]
  const T16: Sorted :=
    [Entity("cap", 8745), Entity("ccedil", 231), Entity("cedil", 184), Entity("cent", 162), Entity("chi", 967)]
  const T17: Sorted :=
    [Entity("circ", 710), Entity("clubs", 9827), Entity("cong", 8773), Entity("copy", 169), Entity("crarr", 8629)]
  const T18: Sorted :=
    [Entity("cup", 8746), Entity("curren", 164), Entity("dArr", 8659), Entity("dagger", 8224), Entity("darr", 8595)]
  const T19: Sorted :=
    [Entity("deg", 176), Entity("delta", 948), Entity("diams", 9830), Entity("die", 168), Entity("divide", 247)]
  const T20: Sorted :=
    [Entity("eacute", 233), Entity("ecirc", 234), Entity("egrave", 232), Entity("empty", 8709), Entity("emsp", 8195)]
  const T21: Sorted :=
    [Entity("ensp", 8194), Entity("epsilon", 949), Entity("equiv", 8801), Entity("eta", 951), Entity("eth", 240)]
  const T22: Sorted :=
    [Entity("euml", 235), Entity("euro", 8364), Entity("exist", 8707), Entity("fnof", 402), Entity("forall", 8704)]
  const T23: Sorted :=
    [Entity("frac12", 189), Entity("frac14", 188), Entity("frac34", 190), Entity("frasl", 8260), Entity("gamma", 947)]
  const T24: Sorted :=
    [Entity("ge", 8805), Entity("gt", 62), Entity("hArr", 8660), Entity("harr", 8596), Entity("hearts", 9829)]
  const T25: Sorted :=
    [Entity("hellip", 8230), Entity("hibar", 175), Entity("iacute", 237), Entity("icirc", 238), Entity("iexcl", 161)]
  const T26: Sorted :=
    [Entity("igrave", 236), Entity("image", 8465), Entity("infin", 8734), Entity("int", 8747), Entity("iota", 953)]
  const T27: Sorted :=
    [Entity("iquest", 191), Entity("isin", 8712), Entity("iuml", 239), Entity("kappa", 954), Entity("lArr", 8656)]
  const T28: Sorted :=
    [Entity("lambda", 955), Entity("lang", 9001), Entity("laquo", 171), Entity("larr", 8592), Entity("lceil", 8968)]
  const T29: Sorted :=
    [Entity("ldquo", 8220), Entity("le", 8804), Entity("lfloor", 8970), Entity("lowast", 8727), Entity("loz", 9674)]
  const T30: Sorted :=
    [Entity("lrm", 8206), Entity("lsaquo", 8249), Entity("lsquo", 8216), Entity("lt", 60), Entity("macr", 175)]
  const T31: Sorted :=
    [Entity("mdash", 8212), Entity("micro", 181), Entity("middot", 183), Entity("minus", 8722), Entity("mu", 956)]
  const T32: Sorted :=
    [Entity("nabla", 8711), Entity("nbsp", 160), Entity("ndash", 8211), Entity("ne", 8800), Entity("ni", 8715)]
  const T33: Sorted :=
    [Entity("not", 172), Entity("notin", 8713), Entity("nsub", 8836), Entity("ntilde", 241), Entity("nu", 957)]
  const T34: Sorted :=
    [Entity("oacute", 243), Entity("ocirc", 244), Entity("oelig", 339), Entity("ograve", 242), Entity("oline", 8254)]
  const T35: Sorted :=
    [Entity("omega", 969), Entity("omicron", 959), Entity("oplus", 8853), Entity("or", 8744), Entity("ordf", 170)]
  const T36: Sorted :=
    [Entity("ordm", 186), Entity("oslash", 248), Entity("otilde", 245), Entity("otimes", 8855), Entity("ouml", 246)]
  const T37: Sorted :=
    [Entity("para", 182), Entity("part", 8706), Entity("permil", 8240), Entity("perp", 8869), Entity("phi", 966)]
  const T38: Sorted :=
    [Entity("pi", 960), Entity("piv", 982), Entity("plusmn", 177), Entity("pound", 163), Entity("prime", 8242)]
  const T39: Sorted :=
    [Entity("prod", 8719), Entity("prop", 8733), Entity("psi", 968), Entity("quot", 34), Entity("rArr", 8658)]
  const T40: Sorted :=
    [Entity("radic", 8730), Entity("rang", 9002), Entity("raquo", 187), Entity("rarr", 8594), Entity("rceil", 8969)]
  const T41: Sorted :=
    [Entity("rdquo", 8221), Entity("real", 8476), Entity("reg", 174), Entity("rfloor", 8971), Entity("rho", 961)]
  const T42: Sorted :=
    [Entity("rlm", 8207), Entity("rsaquo", 8250), Entity("rsquo", 8217), Entity("sbquo", 8218), Entity("scaron", 353)]
  const T43: Sorted :=
    [Entity("sdot", 8901), Entity("sect", 167), Entity("shy", 173), Entity("sigma", 963), Entity("sigmaf", 962)]
  const T44: Sorted :=
    [Entity("sim", 8764), Entity("spades", 9824), Entity("sub", 8834), Entity("sube", 8838), Entity("sum", 8721)]
  const T45: Sorted :=
    [Entity("sup", 8835), Entity("sup1", 185), Entity("sup2", 178), Entity("sup3", 179), Entity("supe", 8839)]
  const T46: Sorted :=
    [Entity("szlig", 223), Entity("tau", 964), Entity("there4", 8756), Entity("theta", 952), Entity("thetasym", 977)]
  const T47: Sorted :=
    [Entity("thinsp", 8201), Entity("thorn", 254), Entity("tilde", 732), Entity("times", 215), Entity("trade", 8482)]
  const T48: Sorted :=
    [Entity("uArr", 8657), Entity("uacute", 250), Entity("uarr", 8593), Entity("ucirc", 251), Entity("ugrave", 249)]
  const T49: Sorted :=
    [Entity("uml", 168), Entity("upsih", 978), Entity("upsilon", 965), Entity("uuml", 252), Entity("weierp", 8472)]
  const T50: Sorted :=
    [Entity("xi", 958), Entity("yacute", 253), Entity("yen", 165), Entity("yuml", 255), Entity("zeta", 950)]
  const T51: Sorted := [Entity("zwj", 8205), Entity("zwnj", 8204)]

  const A0: Sorted := Join(T0, T1)
  const A1: Sorted := Join(T2, T3)
  const A2: Sorted := Join(T4, T5)
  const A3: Sorted := Join(T6, T7)
  const A4: Sorted := Join(T8, T9)
  const A5: Sorted := Join(T10, T11)
  const A6: Sorted := Join(T12, T13)
  const A7: Sorted := Join(T14, T15)
  const A8: Sorted := Join(T16, T17)
  const A9: Sorted := Join(T18, T19)
  const A10: Sorted := Join(T20, T21)
  const A11: Sorted := Join(T22, T23)
  const A12: Sorted := Join(T24, T25)
  const A13: Sorted := Join(T26, T27)
  const A14: Sorted := Join(T28, T29)
  const A15: Sorted := Join(T30, T31)
  const A16: Sorted := Join(T32, T33)
  const A17: Sorted := Join(T34, T35)
  const A18: Sorted := Join(T36, T37)
  const A19: Sorted := Join(T38, T39)
  const A20: Sorted := Join(T40, T41)
  const A21: Sorted := Join(T42, T43)
  const A22: Sorted := Join(T44, T45)
  const A23: Sorted := Join(T46, T47)
  const A24: Sorted := Join(T48, T49)
  const A25: Sorted := Join(T50, T51)
  const B0: Sorted := Join(A0, A1)
  const B1: Sorted := Join(A2, A3)
  const B2: Sorted := Join(A4, A5)
  const B3: Sorted := Join(A6, A7)
  const B4: Sorted := Join(A8, A9)
  const B5: Sorted := Join(A10, A11)
  const B6: Sorted := Join(A12, A13)
  const B7: Sorted := Join(A14, A15)
  const B8: Sorted := Join(A16, A17)
  const B9: Sorted := Join(A18, A19)
  const B10: Sorted := Join(A20, A21)
  const B11: Sorted := Join(A22, A23)
  const B12: Sorted := Join(A24, A25)
  const C0: Sorted := Join(B0, B1)
  const C1: Sorted := Join(B2, B3)
  const C2: Sorted := Join(B4, B5)
  const C3: Sorted := Join(B6, B7)
  const C4: Sorted := Join(B8, B9)
  const C5: Sorted := Join(B10, B11)
  const D0: Sorted := Join(C0, C1)
  const D1: Sorted := Join(C2, C3)
  const D2: Sorted := Join(C4, C5)
  const E0: Sorted := Join(D0, D1)
  const E1: Sorted := Join(D2, B12)

  /** The whole table `entities`: 257 rows. */
  const TABLE: Sorted := Join(E0, E1)

  // -- Lookup ------------------------------------------------------------------------------------

  /** The value of the first row called `name`, or -1. */
  function ValueOf(t: seq<Entity>, name: string): (v: int)
  {
    if t == [] then -1 else if t[0].name == name then t[0].val else ValueOf(t[1..], name)
  }

  lemma {:induction false} ValueOfRow(t: Sorted, i: nat)
    requires i < |t|
    ensures ValueOf(t, t[i].name) == t[i].val
  {
    if i > 0 {
      SortedByStrCmp(t, 0, i);
      StrCmpZero(t[0].name, t[i].name);
      forall k {:trigger t[1..][k]} | 0 < k < |t[1..]|
        ensures LessFrom(t[1..][k - 1].name, t[1..][k].name, 0)
      {
        assert t[1..][k] == t[k + 1] && t[1..][k - 1] == t[k];
      }
      ValueOfRow(t[1..], i - 1);
    }
  }

  lemma ValueOfMember(t: Sorted, e: Entity)
    requires e in t
    ensures ValueOf(t, e.name) == e.val
  {
    var i :| 0 <= i < |t| && t[i] == e;
    ValueOfRow(t, i);
  }

  lemma {:induction false} ValueOfNone(t: seq<Entity>, name: string)
    requires forall i :: 0 <= i < |t| ==> t[i].name != name
    ensures ValueOf(t, name) == -1
  {
    if t != [] {
      ValueOfNone(t[1..], name);
    }
  }

  /** `_mxml_entity_cb`: the binary search, correct on every sorted table. */
  method Search(t: Sorted, name: string) returns (r: int)
    requires t != []
    ensures r == ValueOf(t, name)
  {
    var first, last := 0, |t| - 1;
    while last - first > 1
      invariant 0 <= first <= last < |t|
      invariant forall i :: 0 <= i < first ==> StrCmp(t[i].name, name) < 0
      invariant forall i :: last < i < |t| ==> StrCmp(name, t[i].name) < 0
      decreases last - first
    {
      var current := (first + last) / 2;
      var diff := StrCmp(name, t[current].name);
      if diff == 0 {
        StrCmpZero(name, t[current].name);
        ValueOfRow(t, current);
        return t[current].val;
      } else if diff < 0 {
        ghost var l := last;
        last := current;
        forall i | last < i <= l ensures StrCmp(name, t[i].name) < 0 {
          SortedByStrCmp(t, current, i);
          StrCmpTransitive(name, t[current].name, t[i].name);
        }
      } else {
        ghost var f := first;
        first := current;
        StrCmpAntisymmetric(name, t[current].name);
        forall i | f <= i < first ensures StrCmp(t[i].name, name) < 0 {
          SortedByStrCmp(t, i, current);
          StrCmpTransitive(t[i].name, t[current].name, name);
        }
      }
    }
    if StrCmp(name, t[first].name) == 0 {
      StrCmpZero(name, t[first].name);
      ValueOfRow(t, first);
      return t[first].val;
    } else if StrCmp(name, t[last].name) == 0 {
      StrCmpZero(name, t[last].name);
      ValueOfRow(t, last);
      return t[last].val;
    }
    forall i | 0 <= i < |t| ensures t[i].name != name {
      StrCmpZero(t[i].name, name);
      StrCmpZero(name, t[i].name);
    }
    ValueOfNone(t, name);
    return -1;
  }

  /** `mxmlEntityGetValue` with the callback list every process starts with: `_mxml_entity_cb` alone. */
  function GetValue(name: string): (v: int) {
    ValueOf(TABLE, name)
  }

  method LookUp(name: string) returns (v: int)
    ensures v == GetValue(name)
  {
    hide ValueOf;
    TableNotEmpty();
    v := Search(TABLE, name);
  }

  lemma TableNotEmpty()
    ensures TABLE != []
  {
    assert Entity("amp", 38) in TABLE by { assert T13[2].val == 38; }
  }

  /** `mxmlEntityGetName`: the characters the writer must not emit as they are. */
  function GetName(ch: char): (name: Option<string>) {
    match ch
    case '&' => Some("amp")
    case '<' => Some("lt")
    case '>' => Some("gt")
    case '\"' => Some("quot")
    case _ => None
  }

  lemma RowAmp()
    ensures ValueOf(TABLE, "amp") == 38
  {
    hide ValueOf;
    assert Entity("amp", 38) in TABLE by { assert T13[2].val == 38; }
    ValueOfMember(TABLE, Entity("amp", 38));
  }

  lemma RowGt()
    ensures ValueOf(TABLE, "gt") == 62
  {
    hide ValueOf;
    assert Entity("gt", 62) in TABLE by { assert T24[1].val == 62; }
    ValueOfMember(TABLE, Entity("gt", 62));
  }

  lemma RowLt()
    ensures ValueOf(TABLE, "lt") == 60
  {
    hide ValueOf;
    assert Entity("lt", 60) in TABLE by { assert T30[3].val == 60; }
    ValueOfMember(TABLE, Entity("lt", 60));
  }

  lemma RowQuot()
    ensures ValueOf(TABLE, "quot") == 34
  {
    hide ValueOf;
    assert Entity("quot", 34) in TABLE by { assert T39[3].val == 34; }
    ValueOfMember(TABLE, Entity("quot", 34));
  }

  /** Looking up the name the writer uses for a character gives the character back. */
  lemma NameThenValue(ch: char)
    requires GetName(ch).Some?
    ensures GetValue(GetName(ch).value) == ch as int
  {
    hide ValueOf;
    RowAmp();
    RowGt();
    RowLt();
    RowQuot();
  }
}
