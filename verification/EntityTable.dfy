/** HTMLparser.c 1618-1898: the table of the HTML 4.0 character entities, and what makes it usable. */
module EntityTable {
  import opened Strings
  import opened HtmlEncode
  import opened Entities

  /** The table, in the order of the source. */
  function Html40(): seq<Entity>
  {
    Part0() + Part1() + Part2() + Part3()
  }

  function Part0(): seq<Entity>
  {
    Group0() + Group1() + Group2() + Group3() + Group4() + Group5() + Group6() + Group7()
  }

  function Part1(): seq<Entity>
  {
    Group8() + Group9() + Group10() + Group11() + Group12() + Group13() + Group14() + Group15()
  }

  function Part2(): seq<Entity>
  {
    Group16() + Group17() + Group18() + Group19() + Group20() + Group21() + Group22() + Group23()
  }

  function Part3(): seq<Entity>
  {
    Group24() + Group25() + Group26() + Group27() + Group28() + Group29() + Group30() + Group31()
  }

  function Group0(): seq<Entity>
  {
    [Entity(34, "quot"), Entity(38, "amp"), Entity(39, "apos"), Entity(60, "lt"), Entity(62, "gt"),
    Entity(160, "nbsp"), Entity(161, "iexcl"), Entity(162, "cent")]
  }

  function Group1(): seq<Entity>
  {
    [Entity(163, "pound"), Entity(164, "curren"), Entity(165, "yen"), Entity(166, "brvbar"), Entity(167, "sect"),
    Entity(168, "uml"), Entity(169, "copy"), Entity(170, "ordf")]
  }

  function Group2(): seq<Entity>
  {
    [Entity(171, "laquo"), Entity(172, "not"), Entity(173, "shy"), Entity(174, "reg"), Entity(175, "macr"),
    Entity(176, "deg"), Entity(177, "plusmn"), Entity(178, "sup2")]
  }

  function Group3(): seq<Entity>
  {
    [Entity(179, "sup3"), Entity(180, "acute"), Entity(181, "micro"), Entity(182, "para"), Entity(183, "middot"),
    Entity(184, "cedil"), Entity(185, "sup1"), Entity(186, "ordm")]
  }

  function Group4(): seq<Entity>
  {
    [Entity(187, "raquo"), Entity(188, "frac14"), Entity(189, "frac12"), Entity(190, "frac34"), Entity(191, "iquest"),
    Entity(192, "Agrave"), Entity(193, "Aacute"), Entity(194, "Acirc")]
  }

  function Group5(): seq<Entity>
  {
    [Entity(195, "Atilde"), Entity(196, "Auml"), Entity(197, "Aring"), Entity(198, "AElig"), Entity(199, "Ccedil"),
    Entity(200, "Egrave"), Entity(201, "Eacute"), Entity(202, "Ecirc")]
  }

  function Group6(): seq<Entity>
  {
    [Entity(203, "Euml"), Entity(204, "Igrave"), Entity(205, "Iacute"), Entity(206, "Icirc"), Entity(207, "Iuml"),
    Entity(208, "ETH"), Entity(209, "Ntilde"), Entity(210, "Ograve")]
  }

  function Group7(): seq<Entity>
  {
    [Entity(211, "Oacute"), Entity(212, "Ocirc"), Entity(213, "Otilde"), Entity(214, "Ouml"), Entity(215, "times"),
    Entity(216, "Oslash"), Entity(217, "Ugrave"), Entity(218, "Uacute")]
  }

  function Group8(): seq<Entity>
  {
    [Entity(219, "Ucirc"), Entity(220, "Uuml"), Entity(221, "Yacute"), Entity(222, "THORN"), Entity(223, "szlig"),
    Entity(224, "agrave"), Entity(225, "aacute"), Entity(226, "acirc")]
  }

  function Group9(): seq<Entity>
  {
    [Entity(227, "atilde"), Entity(228, "auml"), Entity(229, "aring"), Entity(230, "aelig"), Entity(231, "ccedil"),
    Entity(232, "egrave"), Entity(233, "eacute"), Entity(234, "ecirc")]
  }

  function Group10(): seq<Entity>
  {
    [Entity(235, "euml"), Entity(236, "igrave"), Entity(237, "iacute"), Entity(238, "icirc"), Entity(239, "iuml"),
    Entity(240, "eth"), Entity(241, "ntilde"), Entity(242, "ograve")]
  }

  function Group11(): seq<Entity>
  {
    [Entity(243, "oacute"), Entity(244, "ocirc"), Entity(245, "otilde"), Entity(246, "ouml"), Entity(247, "divide"),
    Entity(248, "oslash"), Entity(249, "ugrave"), Entity(250, "uacute")]
  }

  function Group12(): seq<Entity>
  {
    [Entity(251, "ucirc"), Entity(252, "uuml"), Entity(253, "yacute"), Entity(254, "thorn"), Entity(255, "yuml"),
    Entity(338, "OElig"), Entity(339, "oelig"), Entity(352, "Scaron")]
  }

  function Group13(): seq<Entity>
  {
    [Entity(353, "scaron"), Entity(376, "Yuml"), Entity(402, "fnof"), Entity(710, "circ"), Entity(732, "tilde"),
    Entity(913, "Alpha"), Entity(914, "Beta"), Entity(915, "Gamma")]
  }

  function Group14(): seq<Entity>
  {
    [Entity(916, "Delta"), Entity(917, "Epsilon"), Entity(918, "Zeta"), Entity(919, "Eta"), Entity(920, "Theta"),
    Entity(921, "Iota"), Entity(922, "Kappa"), Entity(923, "Lambda")]
  }

  function Group15(): seq<Entity>
  {
    [Entity(924, "Mu"), Entity(925, "Nu"), Entity(926, "Xi"), Entity(927, "Omicron"), Entity(928, "Pi"),
    Entity(929, "Rho"), Entity(931, "Sigma"), Entity(932, "Tau")]
  }

  function Group16(): seq<Entity>
  {
    [Entity(933, "Upsilon"), Entity(934, "Phi"), Entity(935, "Chi"), Entity(936, "Psi"), Entity(937, "Omega"),
    Entity(945, "alpha"), Entity(946, "beta"), Entity(947, "gamma")]
  }

  function Group17(): seq<Entity>
  {
    [Entity(948, "delta"), Entity(949, "epsilon"), Entity(950, "zeta"), Entity(951, "eta"), Entity(952, "theta"),
    Entity(953, "iota"), Entity(954, "kappa"), Entity(955, "lambda")]
  }

  function Group18(): seq<Entity>
  {
    [Entity(956, "mu"), Entity(957, "nu"), Entity(958, "xi"), Entity(959, "omicron"), Entity(960, "pi"),
    Entity(961, "rho"), Entity(962, "sigmaf"), Entity(963, "sigma")]
  }

  function Group19(): seq<Entity>
  {
    [Entity(964, "tau"), Entity(965, "upsilon"), Entity(966, "phi"), Entity(967, "chi"), Entity(968, "psi"),
    Entity(969, "omega"), Entity(977, "thetasym"), Entity(978, "upsih")]
  }

  function Group20(): seq<Entity>
  {
    [Entity(982, "piv"), Entity(8194, "ensp"), Entity(8195, "emsp"), Entity(8201, "thinsp"), Entity(8204, "zwnj"),
    Entity(8205, "zwj"), Entity(8206, "lrm"), Entity(8207, "rlm")]
  }

  function Group21(): seq<Entity>
  {
    [Entity(8211, "ndash"), Entity(8212, "mdash"), Entity(8216, "lsquo"), Entity(8217, "rsquo"),
    Entity(8218, "sbquo"), Entity(8220, "ldquo"), Entity(8221, "rdquo"), Entity(8222, "bdquo")]
  }

  function Group22(): seq<Entity>
  {
    [Entity(8224, "dagger"), Entity(8225, "Dagger"), Entity(8226, "bull"), Entity(8230, "hellip"),
    Entity(8240, "permil"), Entity(8242, "prime"), Entity(8243, "Prime"), Entity(8249, "lsaquo")]
  }

  function Group23(): seq<Entity>
  {
    [Entity(8250, "rsaquo"), Entity(8254, "oline"), Entity(8260, "frasl"), Entity(8364, "euro"),
    Entity(8465, "image"), Entity(8472, "weierp"), Entity(8476, "real"), Entity(8482, "trade")]
  }

  function Group24(): seq<Entity>
  {
    [Entity(8501, "alefsym"), Entity(8592, "larr"), Entity(8593, "uarr"), Entity(8594, "rarr"), Entity(8595, "darr"),
    Entity(8596, "harr"), Entity(8629, "crarr"), Entity(8656, "lArr")]
  }

  function Group25(): seq<Entity>
  {
    [Entity(8657, "uArr"), Entity(8658, "rArr"), Entity(8659, "dArr"), Entity(8660, "hArr"), Entity(8704, "forall"),
    Entity(8706, "part"), Entity(8707, "exist"), Entity(8709, "empty")]
  }

  function Group26(): seq<Entity>
  {
    [Entity(8711, "nabla"), Entity(8712, "isin"), Entity(8713, "notin"), Entity(8715, "ni"), Entity(8719, "prod"),
    Entity(8721, "sum"), Entity(8722, "minus"), Entity(8727, "lowast")]
  }

  function Group27(): seq<Entity>
  {
    [Entity(8730, "radic"), Entity(8733, "prop"), Entity(8734, "infin"), Entity(8736, "ang"), Entity(8743, "and"),
    Entity(8744, "or"), Entity(8745, "cap"), Entity(8746, "cup")]
  }

  function Group28(): seq<Entity>
  {
    [Entity(8747, "int"), Entity(8756, "there4"), Entity(8764, "sim"), Entity(8773, "cong"), Entity(8776, "asymp"),
    Entity(8800, "ne"), Entity(8801, "equiv"), Entity(8804, "le")]
  }

  function Group29(): seq<Entity>
  {
    [Entity(8805, "ge"), Entity(8834, "sub"), Entity(8835, "sup"), Entity(8836, "nsub"), Entity(8838, "sube"),
    Entity(8839, "supe"), Entity(8853, "oplus"), Entity(8855, "otimes")]
  }

  function Group30(): seq<Entity>
  {
    [Entity(8869, "perp"), Entity(8901, "sdot"), Entity(8968, "lceil"), Entity(8969, "rceil"), Entity(8970, "lfloor"),
    Entity(8971, "rfloor"), Entity(9001, "lang"), Entity(9002, "rang")]
  }

  function Group31(): seq<Entity>
  {
    [Entity(9674, "loz"), Entity(9824, "spades"), Entity(9827, "clubs"), Entity(9829, "hearts"),
    Entity(9830, "diams")]
  }

  // ----- the names are all different: each has a key, and the key leads back to one place

  function At(name: string, k: nat): nat { if k < |name| then name[k] as nat else 0 }

  /** A name of up to eight characters as a number. */
  function Key(name: string): nat
  {
    At(name, 0) + 0x80 * (At(name, 1) + 0x80 * (At(name, 2) + 0x80 * (At(name, 3) +
      0x80 * (At(name, 4) + 0x80 * (At(name, 5) + 0x80 * (At(name, 6) + 0x80 * At(name, 7)))))))
  }

  /** The place in the table of the name with this key. */
  function IndexOf(key: nat): nat
  {
    if key < 1604165 then Index0(key)
    else if key < 1799411 then Index1(key)
    else if key < 1995891 then Index2(key)
    else if key < 213662451 then Index3(key)
    else if key < 228293349 then Index4(key)
    else if key < 240951532 then Index5(key)
    else if key < 26255914703 then Index6(key)
    else if key < 26815918529 then Index7(key)
    else if key < 27344402031 then Index8(key)
    else if key < 29233805670 then Index9(key)
    else if key < 31083689204 then Index10(key)
    else if key < 3497405348431 then Index11(key)
    else if key < 3502214263745 then Index12(key)
    else if key < 3740048078822 then Index13(key)
    else if key < 3978712218223 then Index14(key)
    else Index15(key)
  }

  function Index0(key: nat): nat
  {
    if key == 13031 then 232 else if key == 13036 then 231 else if key == 13038 then 229 else
    if key == 13520 then 124 else if key == 13528 then 122 else if key == 13550 then 211 else
    if key == 13552 then 148 else if key == 13560 then 146 else if key == 14703 then 221 else
    if key == 14951 then 4 else if key == 14956 then 3 else if key == 15053 then 120 else
    if key == 15054 then 121 else if key == 15085 then 144 else if key == 15086 then 145 else 53
  }

  function Index1(key: nat): nat
  {
    if key == 1604165 then 115 else if key == 1604197 then 139 else if key == 1620723 then 233 else
    if key == 1652577 then 220 else if key == 1700580 then 21 else if key == 1700594 then 19 else
    if key == 1701729 then 219 else if key == 1718885 then 85 else if key == 1733699 then 130 else
    if key == 1733712 then 129 else if key == 1733731 then 155 else if key == 1733744 then 154 else
    if key == 1735120 then 131 else if key == 1735152 then 156 else if key == 1752058 then 165 else 13
  }

  function Index2(key: nat): nat
  {
    if key == 1799411 then 226 else if key == 1799794 then 167 else if key == 1800556 then 166 else
    if key == 1800947 then 213 else if key == 1815289 then 10 else if key == 1832018 then 125 else
    if key == 1832050 then 149 else if key == 1847523 then 222 else if key == 1849057 then 1 else
    if key == 1850083 then 223 else if key == 1850099 then 234 else if key == 1914729 then 224 else
    if key == 1914862 then 17 else if key == 1929428 then 127 else if key == 1929460 then 152 else 160
  }

  function Index3(key: nat): nat
  {
    if key == 1995891 then 18 else if key == 2013164 then 248 else if key == 104610547 then 30 else
    if key == 106707699 then 23 else if key == 108804851 then 24 else if key == 205304048 then 27 else
    if key == 205337282 then 110 else if key == 205337306 then 114 else if key == 205337314 then 134 else
    if key == 205337338 then 138 else if key == 205338569 then 117 else if key == 205338601 then 141 else
    if key == 207452654 then 235 else if key == 209499363 then 107 else if key == 211548528 then 212 else 236
  }

  function Index4(key: nat): nat
  {
    if key == 213662451 then 237 else if key == 215562607 then 15 else if key == 215742310 then 106 else
    if key == 217821420 then 246 else if key == 217821426 then 247 else if key == 217823203 then 227 else
    if key == 224115706 then 164 else if key == 228094706 then 190 else if key == 228276962 then 178 else
    if key == 228293313 then 41 else if key == 228293317 then 48 else if key == 228293321 then 52 else
    if key == 228293327 then 59 else if key == 228293333 then 65 else if key == 228293337 then 105 else 73
  }

  function Index5(key: nat): nat
  {
    if key == 228293349 then 80 else if key == 228293353 then 84 else if key == 228293359 then 91 else
    if key == 228293365 then 97 else if key == 228293369 then 100 else if key == 230242671 then 31 else
    if key == 232421865 then 209 else if key == 234666725 then 187 else if key == 236714352 then 217 else
    if key == 236761840 then 240 else if key == 236777838 then 5 else if key == 236779237 then 162 else
    if key == 236779365 then 161 else if key == 240709869 then 20 else if key == 240951524 then 202 else 203
  }

  function Index6(key: nat): nat
  {
    if key == 240951532 then 199 else if key == 240951538 then 201 else if key == 240951541 then 200 else
    if key == 240955620 then 196 else if key == 240955624 then 197 else if key == 240955628 then 193 else
    if key == 240955634 then 195 else if key == 240955637 then 194 else if key == 243005537 then 2 else
    if key == 244904691 then 12 else if key == 245084899 then 7 else if key == 245101171 then 241 else
    if key == 245103345 then 0 else if key == 245149936 then 205 else if key == 255604707 then 14 else 67
  }

  function Index7(key: nat): nat
  {
    if key == 26255914703 then 132 else if key == 26255914735 then 157 else if key == 26258191937 then 109 else
    if key == 26258191969 then 133 else if key == 26266349806 then 208 else if key == 26268529875 then 126 else
    if key == 26268529907 then 151 else if key == 26268627143 then 111 else if key == 26268627175 then 135 else
    if key == 26274967755 then 118 else if key == 26274967787 then 142 else if key == 26283177044 then 116 else
    if key == 26283177076 then 140 else if key == 26283291332 then 112 else if key == 26283291364 then 136 else 216
  }

  function Index8(key: nat): nat
  {
    if key == 26815918529 then 39 else if key == 26815918533 then 47 else if key == 26815918537 then 51 else
    if key == 26815918543 then 57 else if key == 26815918549 then 64 else if key == 26815918561 then 71 else
    if key == 26815918565 then 79 else if key == 26815918569 then 83 else if key == 26815918575 then 89 else
    if key == 26815918581 then 96 else if key == 27076163568 then 8 else if key == 27323300212 then 191 else
    if key == 27323479284 then 108 else if key == 27329591017 then 188 else if key == 27342305616 then 182 else 181
  }

  function Index9(key: nat): nat
  {
    if key == 27344402031 then 185 else if key == 27357180385 then 25 else if key == 27870831297 then 43 else
    if key == 27870831311 then 101 else if key == 27870835425 then 75 else if key == 27870835439 then 102 else
    if key == 27870838131 then 68 else if key == 27881273665 then 42 else if key == 27881273697 then 74 else
    if key == 28139386997 then 159 else if key == 28160062061 then 169 else if key == 28160062062 then 168 else
    if key == 29200626409 then 6 else if key == 29212881635 then 29 else if key == 29212897772 then 242 else 243
  }

  function Index10(key: nat): nat
  {
    if key == 29233805670 then 186 else if key == 29749786473 then 218 else if key == 29750015982 then 210 else
    if key == 29768807540 then 99 else if key == 30037046509 then 26 else if key == 30043566316 then 16 else
    if key == 30043566322 then 32 else if key == 30043566451 then 172 else if key == 30043566690 then 175 else
    if key == 30043566700 then 173 else if key == 30043566706 then 174 else if key == 30043568620 then 170 else
    if key == 30043568626 then 171 else if key == 30295357921 then 228 else if key == 30842321251 then 198 else 250
  }

  function Index11(key: nat): nat
  {
    if key == 31083689204 then 60 else if key == 31100269796 then 252 else if key == 31117228143 then 238 else
    if key == 31117260013 then 214 else if key == 31381421157 then 206 else if key == 31897516261 then 230 else
    if key == 32725808869 then 207 else if key == 1731349477734 then 34 else if key == 1800068954470 then 33 else
    if key == 1800605825382 then 35 else if key == 1814059119732 then 225 else if key == 3359945486540 then 119 else
    if key == 3359945486572 then 143 else if key == 3497399268580 then 92 else if key == 3497405348417 then 40 else 54
  }

  function Index12(key: nat): nat
  {
    if key == 3497405348431 then 58 else if key == 3497405348449 then 72 else if key == 3497405348462 then 86 else
    if key == 3497405348463 then 90 else if key == 3501719089345 then 38 else if key == 3501719089349 then 46 else
    if key == 3501719089353 then 50 else if key == 3501719089359 then 56 else if key == 3501719089365 then 63 else
    if key == 3501719089369 then 66 else if key == 3501719089377 then 70 else if key == 3501719089381 then 78 else
    if key == 3501719089385 then 82 else if key == 3501719089391 then 88 else if key == 3501719089397 then 95 else 98
  }

  function Index13(key: nat): nat
  {
    if key == 3502214263745 then 37 else if key == 3502214263749 then 45 else if key == 3502214263753 then 49 else
    if key == 3502214263759 then 55 else if key == 3502214263765 then 62 else if key == 3502214263777 then 69 else
    if key == 3502214263781 then 77 else if key == 3502214263785 then 81 else if key == 3502214263791 then 87 else
    if key == 3502214263797 then 94 else if key == 3530961843443 then 150 else if key == 3604488075727 then 61 else
    if key == 3604488075759 then 93 else if key == 3739248849347 then 44 else if key == 3739248849379 then 76 else 180
  }

  function Index14(key: nat): nat
  {
    if key == 3740048078822 then 204 else if key == 3806924159715 then 9 else if key == 3809073788528 then 22 else
    if key == 3809608233427 then 103 else if key == 3809608233459 then 104 else if key == 3845576489452 then 183 else
    if key == 3845576489458 then 184 else if key == 3876704695016 then 179 else if key == 3879105884919 then 189 else
    if key == 3879393195124 then 163 else if key == 3943255882082 then 11 else if key == 3944339861700 then 177 else
    if key == 3944339861732 then 176 else if key == 3947041076076 then 244 else if key == 3947041076082 then 245 else
    249
  }

  function Index15(key: nat): nat
  {
    if key == 3978712218223 then 239 else if key == 3982749102824 then 251 else if key == 4015737353453 then 28 else
    if key == 4016805115884 then 215 else if key == 4016813471977 then 36 else if key == 483575683708513 then 192 else
    if key == 487628260309061 then 113 else if key == 487628260309077 then 128 else
    if key == 487628260309093 then 137 else if key == 487628260309109 then 153 else
    if key == 487629858174671 then 123 else if key == 487629858174703 then 147 else 158
  }

  // ----- group by group

  /** What has to be seen of the entry at place `at` by itself. */
  predicate Fine(e: Entity, at: nat)
  {
    IndexOf(Key(e.name)) == at && LegalChar(e.value) && LooksLikeName(e.name)
  }

  predicate FineAt(rows: seq<Entity>, from: nat, k: nat)
    requires k < |rows|
  {
    Fine(rows[k], from + k)
  }

  ghost predicate AllFine(rows: seq<Entity>, from: nat)
  {
    forall k: nat :: k < |rows| ==> FineAt(rows, from, k)
  }

  ghost predicate Rises(rows: seq<Entity>)
  {
    forall k :: 0 < k < |rows| ==> rows[k - 1].value < rows[k].value
  }

  ghost predicate Ends(rows: seq<Entity>, n: nat, first: int, last: int)
  {
    |rows| == n > 0 && rows[0].value == first && rows[n - 1].value == last
  }

  /** Entries that may stand at `from` and after it in the table. */
  ghost predicate Block(rows: seq<Entity>, from: nat)
  {
    rows != [] && AllFine(rows, from) && Rises(rows)
  }

  lemma Fine0()
    ensures forall k :: 0 <= k < 8 ==> Fine(Group0()[k], 0 + k)
  {
  }

  lemma Fine1()
    ensures forall k :: 0 <= k < 8 ==> Fine(Group1()[k], 8 + k)
  {
  }

  lemma Fine2()
    ensures forall k :: 0 <= k < 8 ==> Fine(Group2()[k], 16 + k)
  {
  }

  lemma Fine3()
    ensures forall k :: 0 <= k < 8 ==> Fine(Group3()[k], 24 + k)
  {
  }

  lemma Fine4()
    ensures forall k :: 0 <= k < 8 ==> Fine(Group4()[k], 32 + k)
  {
  }

  lemma Fine5()
    ensures forall k :: 0 <= k < 8 ==> Fine(Group5()[k], 40 + k)
  {
  }

  lemma Fine6()
    ensures forall k :: 0 <= k < 8 ==> Fine(Group6()[k], 48 + k)
  {
  }

  lemma Fine7()
    ensures forall k :: 0 <= k < 8 ==> Fine(Group7()[k], 56 + k)
  {
  }

  lemma Fine8()
    ensures forall k :: 0 <= k < 8 ==> Fine(Group8()[k], 64 + k)
  {
  }

  lemma Fine9()
    ensures forall k :: 0 <= k < 8 ==> Fine(Group9()[k], 72 + k)
  {
  }

  lemma Fine10()
    ensures forall k :: 0 <= k < 8 ==> Fine(Group10()[k], 80 + k)
  {
  }

  lemma Fine11()
    ensures forall k :: 0 <= k < 8 ==> Fine(Group11()[k], 88 + k)
  {
  }

  lemma Fine12()
    ensures forall k :: 0 <= k < 8 ==> Fine(Group12()[k], 96 + k)
  {
  }

  lemma Fine13()
    ensures forall k :: 0 <= k < 8 ==> Fine(Group13()[k], 104 + k)
  {
  }

  lemma Fine14()
    ensures forall k :: 0 <= k < 8 ==> Fine(Group14()[k], 112 + k)
  {
  }

  lemma Fine15()
    ensures forall k :: 0 <= k < 8 ==> Fine(Group15()[k], 120 + k)
  {
  }

  lemma Fine16()
    ensures forall k :: 0 <= k < 8 ==> Fine(Group16()[k], 128 + k)
  {
  }

  lemma Fine17()
    ensures forall k :: 0 <= k < 8 ==> Fine(Group17()[k], 136 + k)
  {
  }

  lemma Fine18()
    ensures forall k :: 0 <= k < 8 ==> Fine(Group18()[k], 144 + k)
  {
  }

  lemma Fine19()
    ensures forall k :: 0 <= k < 8 ==> Fine(Group19()[k], 152 + k)
  {
  }

  lemma Fine20()
    ensures forall k :: 0 <= k < 8 ==> Fine(Group20()[k], 160 + k)
  {
  }

  lemma Fine21()
    ensures forall k :: 0 <= k < 8 ==> Fine(Group21()[k], 168 + k)
  {
  }

  lemma Fine22()
    ensures forall k :: 0 <= k < 8 ==> Fine(Group22()[k], 176 + k)
  {
  }

  lemma Fine23()
    ensures forall k :: 0 <= k < 8 ==> Fine(Group23()[k], 184 + k)
  {
  }

  lemma Fine24()
    ensures forall k :: 0 <= k < 8 ==> Fine(Group24()[k], 192 + k)
  {
  }

  lemma Fine25()
    ensures forall k :: 0 <= k < 8 ==> Fine(Group25()[k], 200 + k)
  {
  }

  lemma Fine26()
    ensures forall k :: 0 <= k < 8 ==> Fine(Group26()[k], 208 + k)
  {
  }

  lemma Fine27()
    ensures forall k :: 0 <= k < 8 ==> Fine(Group27()[k], 216 + k)
  {
  }

  lemma Fine28()
    ensures forall k :: 0 <= k < 8 ==> Fine(Group28()[k], 224 + k)
  {
  }

  lemma Fine29()
    ensures forall k :: 0 <= k < 8 ==> Fine(Group29()[k], 232 + k)
  {
  }

  lemma Fine30()
    ensures forall k :: 0 <= k < 8 ==> Fine(Group30()[k], 240 + k)
  {
  }

  lemma Fine31()
    ensures forall k :: 0 <= k < 5 ==> Fine(Group31()[k], 248 + k)
  {
  }

  /** `rows` is a block that starts and ends with these values. */
  ghost predicate Spans(rows: seq<Entity>, from: nat, to: nat, first: int, last: int)
  {
    from < to && Block(rows, from) && Ends(rows, to - from, first, last)
  }

  lemma Block0()
    ensures Spans(Group0(), 0, 8, 34, 162)
  {
    assert AllFine(Group0(), 0) by { Fine0(); }
  }

  lemma Block1()
    ensures Spans(Group1(), 8, 16, 163, 170)
  {
    assert AllFine(Group1(), 8) by { Fine1(); }
  }

  lemma Block2()
    ensures Spans(Group2(), 16, 24, 171, 178)
  {
    assert AllFine(Group2(), 16) by { Fine2(); }
  }

  lemma Block3()
    ensures Spans(Group3(), 24, 32, 179, 186)
  {
    assert AllFine(Group3(), 24) by { Fine3(); }
  }

  lemma Block4()
    ensures Spans(Group4(), 32, 40, 187, 194)
  {
    assert AllFine(Group4(), 32) by { Fine4(); }
  }

  lemma Block5()
    ensures Spans(Group5(), 40, 48, 195, 202)
  {
    assert AllFine(Group5(), 40) by { Fine5(); }
  }

  lemma Block6()
    ensures Spans(Group6(), 48, 56, 203, 210)
  {
    assert AllFine(Group6(), 48) by { Fine6(); }
  }

  lemma Block7()
    ensures Spans(Group7(), 56, 64, 211, 218)
  {
    assert AllFine(Group7(), 56) by { Fine7(); }
  }

  lemma Block8()
    ensures Spans(Group8(), 64, 72, 219, 226)
  {
    assert AllFine(Group8(), 64) by { Fine8(); }
  }

  lemma Block9()
    ensures Spans(Group9(), 72, 80, 227, 234)
  {
    assert AllFine(Group9(), 72) by { Fine9(); }
  }

  lemma Block10()
    ensures Spans(Group10(), 80, 88, 235, 242)
  {
    assert AllFine(Group10(), 80) by { Fine10(); }
  }

  lemma Block11()
    ensures Spans(Group11(), 88, 96, 243, 250)
  {
    assert AllFine(Group11(), 88) by { Fine11(); }
  }

  lemma Block12()
    ensures Spans(Group12(), 96, 104, 251, 352)
  {
    assert AllFine(Group12(), 96) by { Fine12(); }
  }

  lemma Block13()
    ensures Spans(Group13(), 104, 112, 353, 915)
  {
    assert AllFine(Group13(), 104) by { Fine13(); }
  }

  lemma Block14()
    ensures Spans(Group14(), 112, 120, 916, 923)
  {
    assert AllFine(Group14(), 112) by { Fine14(); }
  }

  lemma Block15()
    ensures Spans(Group15(), 120, 128, 924, 932)
  {
    assert AllFine(Group15(), 120) by { Fine15(); }
  }

  lemma Block16()
    ensures Spans(Group16(), 128, 136, 933, 947)
  {
    assert AllFine(Group16(), 128) by { Fine16(); }
  }

  lemma Block17()
    ensures Spans(Group17(), 136, 144, 948, 955)
  {
    assert AllFine(Group17(), 136) by { Fine17(); }
  }

  lemma Block18()
    ensures Spans(Group18(), 144, 152, 956, 963)
  {
    assert AllFine(Group18(), 144) by { Fine18(); }
  }

  lemma Block19()
    ensures Spans(Group19(), 152, 160, 964, 978)
  {
    assert AllFine(Group19(), 152) by { Fine19(); }
  }

  lemma Block20()
    ensures Spans(Group20(), 160, 168, 982, 8207)
  {
    assert AllFine(Group20(), 160) by { Fine20(); }
  }

  lemma Block21()
    ensures Spans(Group21(), 168, 176, 8211, 8222)
  {
    assert AllFine(Group21(), 168) by { Fine21(); }
  }

  lemma Block22()
    ensures Spans(Group22(), 176, 184, 8224, 8249)
  {
    assert AllFine(Group22(), 176) by { Fine22(); }
  }

  lemma Block23()
    ensures Spans(Group23(), 184, 192, 8250, 8482)
  {
    assert AllFine(Group23(), 184) by { Fine23(); }
  }

  lemma Block24()
    ensures Spans(Group24(), 192, 200, 8501, 8656)
  {
    assert AllFine(Group24(), 192) by { Fine24(); }
  }

  lemma Block25()
    ensures Spans(Group25(), 200, 208, 8657, 8709)
  {
    assert AllFine(Group25(), 200) by { Fine25(); }
  }

  lemma Block26()
    ensures Spans(Group26(), 208, 216, 8711, 8727)
  {
    assert AllFine(Group26(), 208) by { Fine26(); }
  }

  lemma Block27()
    ensures Spans(Group27(), 216, 224, 8730, 8746)
  {
    assert AllFine(Group27(), 216) by { Fine27(); }
  }

  lemma Block28()
    ensures Spans(Group28(), 224, 232, 8747, 8804)
  {
    assert AllFine(Group28(), 224) by { Fine28(); }
  }

  lemma Block29()
    ensures Spans(Group29(), 232, 240, 8805, 8855)
  {
    assert AllFine(Group29(), 232) by { Fine29(); }
  }

  lemma Block30()
    ensures Spans(Group30(), 240, 248, 8869, 9002)
  {
    assert AllFine(Group30(), 240) by { Fine30(); }
  }

  lemma Block31()
    ensures Spans(Group31(), 248, 253, 9674, 9830)
  {
    assert AllFine(Group31(), 248) by { Fine31(); }
  }

  lemma Join(a: seq<Entity>, b: seq<Entity>, from: nat, mid: nat, to: nat, first: int, m: int, n: int, last: int)
    requires from < mid < to && Spans(a, from, mid, first, m) && Spans(b, mid, to, n, last) && m < n
    ensures Spans(a + b, from, to, first, last)
  {
    var rows := a + b;
    forall k: nat | k < |rows| ensures FineAt(rows, from, k) {
      assert if k < |a| then FineAt(a, from, k) else FineAt(b, mid, k - |a|);
    }
  }

  lemma BlockPart0()
    ensures Spans(Part0(), 0, 64, 34, 218)
  {
    Block0();
    var rows := Group0();
    Block1();
    Join(rows, Group1(), 0, 8, 16, 34, 162, 163, 170);
    rows := rows + Group1();
    Block2();
    Join(rows, Group2(), 0, 16, 24, 34, 170, 171, 178);
    rows := rows + Group2();
    Block3();
    Join(rows, Group3(), 0, 24, 32, 34, 178, 179, 186);
    rows := rows + Group3();
    Block4();
    Join(rows, Group4(), 0, 32, 40, 34, 186, 187, 194);
    rows := rows + Group4();
    Block5();
    Join(rows, Group5(), 0, 40, 48, 34, 194, 195, 202);
    rows := rows + Group5();
    Block6();
    Join(rows, Group6(), 0, 48, 56, 34, 202, 203, 210);
    rows := rows + Group6();
    Block7();
    Join(rows, Group7(), 0, 56, 64, 34, 210, 211, 218);
    rows := rows + Group7();
  }

  lemma BlockPart1()
    ensures Spans(Part1(), 64, 128, 219, 932)
  {
    Block8();
    var rows := Group8();
    Block9();
    Join(rows, Group9(), 64, 72, 80, 219, 226, 227, 234);
    rows := rows + Group9();
    Block10();
    Join(rows, Group10(), 64, 80, 88, 219, 234, 235, 242);
    rows := rows + Group10();
    Block11();
    Join(rows, Group11(), 64, 88, 96, 219, 242, 243, 250);
    rows := rows + Group11();
    Block12();
    Join(rows, Group12(), 64, 96, 104, 219, 250, 251, 352);
    rows := rows + Group12();
    Block13();
    Join(rows, Group13(), 64, 104, 112, 219, 352, 353, 915);
    rows := rows + Group13();
    Block14();
    Join(rows, Group14(), 64, 112, 120, 219, 915, 916, 923);
    rows := rows + Group14();
    Block15();
    Join(rows, Group15(), 64, 120, 128, 219, 923, 924, 932);
    rows := rows + Group15();
  }

  lemma BlockPart2()
    ensures Spans(Part2(), 128, 192, 933, 8482)
  {
    Block16();
    var rows := Group16();
    Block17();
    Join(rows, Group17(), 128, 136, 144, 933, 947, 948, 955);
    rows := rows + Group17();
    Block18();
    Join(rows, Group18(), 128, 144, 152, 933, 955, 956, 963);
    rows := rows + Group18();
    Block19();
    Join(rows, Group19(), 128, 152, 160, 933, 963, 964, 978);
    rows := rows + Group19();
    Block20();
    Join(rows, Group20(), 128, 160, 168, 933, 978, 982, 8207);
    rows := rows + Group20();
    Block21();
    Join(rows, Group21(), 128, 168, 176, 933, 8207, 8211, 8222);
    rows := rows + Group21();
    Block22();
    Join(rows, Group22(), 128, 176, 184, 933, 8222, 8224, 8249);
    rows := rows + Group22();
    Block23();
    Join(rows, Group23(), 128, 184, 192, 933, 8249, 8250, 8482);
    rows := rows + Group23();
  }

  lemma BlockPart3()
    ensures Spans(Part3(), 192, 253, 8501, 9830)
  {
    Block24();
    var rows := Group24();
    Block25();
    Join(rows, Group25(), 192, 200, 208, 8501, 8656, 8657, 8709);
    rows := rows + Group25();
    Block26();
    Join(rows, Group26(), 192, 208, 216, 8501, 8709, 8711, 8727);
    rows := rows + Group26();
    Block27();
    Join(rows, Group27(), 192, 216, 224, 8501, 8727, 8730, 8746);
    rows := rows + Group27();
    Block28();
    Join(rows, Group28(), 192, 224, 232, 8501, 8746, 8747, 8804);
    rows := rows + Group28();
    Block29();
    Join(rows, Group29(), 192, 232, 240, 8501, 8804, 8805, 8855);
    rows := rows + Group29();
    Block30();
    Join(rows, Group30(), 192, 240, 248, 8501, 8855, 8869, 9002);
    rows := rows + Group30();
    Block31();
    Join(rows, Group31(), 192, 248, 253, 8501, 9002, 9674, 9830);
    rows := rows + Group31();
  }

  lemma BlockHtml40()
    ensures Block(Html40(), 0)
  {
    BlockPart0();
    var rows := Part0();
    BlockPart1();
    Join(rows, Part1(), 0, 64, 128, 34, 218, 219, 932);
    rows := rows + Part1();
    BlockPart2();
    Join(rows, Part2(), 0, 128, 192, 34, 932, 933, 8482);
    rows := rows + Part2();
    BlockPart3();
    Join(rows, Part3(), 0, 192, 253, 34, 8482, 8501, 9830);
    rows := rows + Part3();
  }

  lemma {:induction false} BlockAscends(rows: seq<Entity>, i: nat, j: nat)
    requires Block(rows, 0) && i < j < |rows|
    ensures rows[i].value < rows[j].value
    decreases j
  {
    if i + 1 < j { BlockAscends(rows, i, j - 1); }
  }

  lemma BlockIsUsable(rows: seq<Entity>)
    requires Block(rows, 0)
    ensures Usable(rows)
  {
    forall i, j | 0 <= i < j < |rows| ensures rows[i].name != rows[j].name && rows[i].value < rows[j].value {
      assert FineAt(rows, 0, i) && FineAt(rows, 0, j);
      BlockAscends(rows, i, j);
    }
    forall i | 0 <= i < |rows| ensures LegalChar(rows[i].value) && LooksLikeName(rows[i].name) {
      assert FineAt(rows, 0, i);
    }
  }

  /** The table ascends and no two of its names are the same, so printing with it and reading back is
      the identity exactly on legal characters in their shortest form. */
  lemma Html40RoundTrip(s: string, quoteChar: int)
    requires Whole(s)
    ensures Usable(Html40())
    ensures Read(TableOf(Html40()), Encoded(TableOf(Html40()), s, quoteChar)) == s <==> AllProper(s)
  {
    BlockHtml40();
    BlockIsUsable(Html40());
    UsableIsGood(Html40());
    RoundTrip(TableOf(Html40()), s, quoteChar);
  }
}
