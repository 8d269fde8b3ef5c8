/** A chain of primes that brackets every generator modulus up to 2^32: each of them
    lies strictly above half of the moduli it covers and at most at three quarters of
    them plus one, the window in which the queue looks for its increment. */
module PrimeChain {
  import opened NumberTheory
  import opened Proth

  ghost predicate Brackets(p: nat, m: nat) {
    IsPrime(p) && m < 2 * p && 4 * (p - 1) <= 3 * m
  }

  lemma BracketSmall(m: nat) returns (p: nat)
    requires 5 <= m < 466
    ensures Brackets(p, m)
  {
    if m < 6 {
      p := 3;
      TrialPrime(3);
    } else if m < 10 {
      p := 5;
      TrialPrime(5);
    } else if m < 14 {
      p := 7;
      TrialPrime(7);
    } else if m < 22 {
      p := 11;
      TrialPrime(11);
    } else if m < 34 {
      p := 17;
      TrialPrime(17);
    } else if m < 46 {
      p := 23;
      TrialPrime(23);
    } else if m < 62 {
      p := 31;
      TrialPrime(31);
    } else if m < 94 {
      p := 47;
      TrialPrime(47);
    } else if m < 142 {
      p := 71;
      TrialPrime(71);
    } else if m < 214 {
      p := 107;
      TrialPrime(107);
    } else if m < 314 {
      p := 157;
      TrialPrime(157);
    } else {
      p := 233;
      TrialPrime(233);
    }
  }

  lemma Prime257()
    ensures IsPrime(257)
  {
    ProthPrime(257, 136,
      Sq(71, 249, Sq(241, 64, Sq(15, 241, Sq(225, 256, End)))));
  }

  lemma Prime353()
    ensures IsPrime(353)
  {
    ProthPrime(353, 294,
      Sq(244, 304, Sq(261, 283, Sq(226, 311, Sq(273, 352, End)))));
  }

  lemma Prime449()
    ensures IsPrime(449)
  {
    ProthPrime(449, 221,
      Sq(108, 349, Sq(271, 122, Sq(33, 67, Sq(9, 448, End)))));
  }

  lemma Prime673()
    ensures IsPrime(673)
  {
    ProthPrime(673, 118,
      Sq(20, 464, Sq(319, 609, Sq(551, 58, Sq(4, 672, End)))));
  }

  lemma Prime929()
    ensures IsPrime(929)
  {
    ProthPrime(929, 701,
      Sq(528, 889, Sq(850, 671, Sq(484, 605, Sq(393, 928, End)))));
  }

  lemma Prime1217()
    ensures IsPrime(1217)
  {
    ProthPrime(1217, 910,
      Sq(680, 540, Sq(239, 737, Sq(446, 387, Sq(123, 78, Sq(4, 1216, End))))));
  }

  lemma Prime1601()
    ensures IsPrime(1601)
  {
    ProthPrime(1601, 828,
      Sq(428, 356, Sq(79, 257, Sq(41, 408, Sq(103, 1561, Sq(1521, 1600, End))))));
  }

  lemma Prime2113()
    ensures IsPrime(2113)
  {
    ProthPrime(2113, 1036,
      Sq(507, 2005, Sq(1902, 1099, Sq(571, 1278, Sq(772, 2048, Sq(1984, 2112, End))))));
  }

  lemma Prime3137()
    ensures IsPrime(3137)
  {
    ProthPrime(3137, 1944,
      Sq(1204, 2188, Sq(1526, 282, Sq(25, 1099, Sq(385, 56, Sq(0, 3136, End))))));
  }

  lemma Prime4481()
    ensures IsPrime(4481)
  {
    ProthPrime(4481, 1937,
      Sq(837, 1372, Sq(420, 364, Sq(29, 2547, Sq(1447, 3202, Sq(2288, 276, Sq(16, 4480, End)))))));
  }

  lemma Prime6529()
    ensures IsPrime(6529)
  {
    ProthPrime(6529, 2338,
      Sq(837, 1471, Sq(331, 2742, Sq(1151, 3685, Sq(2079, 5434, Sq(4522, 4218, Sq(2724, 6528, End)))))));
  }

  lemma Prime9601()
    ensures IsPrime(9601)
  {
    ProthPrime(9601, 988,
      Sq(101, 6443, Sq(4323, 7126, Sq(5289, 187, Sq(3, 6166, Sq(3959, 9197, Sq(8809, 9600, End)))))));
  }

  lemma Prime14081()
    ensures IsPrime(14081)
  {
    ProthPrime(14081, 1850,
      Sq(243, 817, Sq(47, 5682, Sq(2292, 11472, Sq(9346, 5758, Sq(2354, 7890, Sq(4420, 14080, End)))))));
  }

  lemma Prime19457()
    ensures IsPrime(19457)
  {
    ProthPrime(19457, 4541,
      Sq(1059, 15718, Sq(12697, 9995, Sq(5134, 7787, Sq(3116, 9357, Sq(4499, 16406, Sq(13833, 8155, Sq(3417, 19456,
      End))))))));
  }

  lemma Prime26881()
    ensures IsPrime(26881)
  {
    ProthPrime(26881, 22234,
      Sq(18390, 9166, Sq(3125, 12431, Sq(5748, 17773, Sq(11751, 898, Sq(29, 26855, Sq(26829, 676, Sq(16, 26880,
      End))))))));
  }

  lemma Prime40193()
    ensures IsPrime(40193)
  {
    ProthPrime(40193, 15103,
      Sq(5675, 5334, Sq(707, 35105, Sq(30661, 3452, Sq(296, 19176, Sq(9148, 33412, Sq(27775, 1169, Sq(33, 40192,
      End))))))));
  }

  lemma Prime60161()
    ensures IsPrime(60161)
  {
    ProthPrime(60161, 53012,
      Sq(46712, 31512, Sq(16505, 48839, Sq(39647, 44754, Sq(33292, 40504, Sq(27269, 43707, Sq(31753, 9616,
      Sq(1536, 60160, End))))))));
  }

  lemma Prime87553()
    ensures IsPrime(87553)
  {
    ProthPrime(87553, 83133,
      Sq(78936, 12081, Sq(1666, 87263, Sq(86973, 84100, Sq(80783, 16001, Sq(2924, 27029, Sq(8344, 24609,
      Sq(6916, 86333, Sq(85129, 87552, End)))))))));
  }

  lemma Prime125441()
    ensures IsPrime(125441)
  {
    ProthPrime(125441, 1479,
      Sq(17, 54944, Sq(24065, 105471, Sq(88680, 23961, Sq(4576, 111505, Sq(99117, 29428, Sq(6903, 87961,
      Sq(61679, 62082, Sq(30724, 125440, End)))))))));
  }

  lemma Prime187393()
    ensures IsPrime(187393)
  {
    ProthPrime(187393, 28155,
      Sq(4230, 31635, Sq(5340, 94605, Sq(47761, 28952, Sq(4473, 9415, Sq(473, 5336, Sq(151, 176553,
      Sq(166340, 10189, Sq(553, 187392, End)))))))));
  }

  lemma Prime279553()
    ensures IsPrime(279553)
  {
    ProthPrime(279553, 198915,
      Sq(141537, 84264, Sq(25399, 55049, Sq(10840, 37881, Sq(5133, 24612, Sq(2166, 238746, Sq(203895, 193581,
      Sq(134048, 83017, Sq(24653, 2180, Sq(16, 279552, End))))))))));
  }

  lemma Prime417793()
    ensures IsPrime(417793)
  {
    ProthPrime(417793, 184565,
      Sq(81533, 322556, Sq(249028, 217932, Sq(113679, 66177, Sq(10482, 89103, Sq(19003, 24230, Sq(1405, 93735,
      Sq(21030, 63435, Sq(9631, 234842, Sq(132004, 417792, End))))))))));
  }

  lemma Prime623617()
    ensures IsPrime(623617)
  {
    ProthPrime(623617, 520924,
      Sq(435141, 488779, Sq(383095, 356226, Sq(203485, 257831, Sq(106598, 499595, Sq(400237, 566796,
      Sq(515152, 160832, Sq(41478, 546298, Sq(478565, 235199, Sq(88705, 623616, End))))))))));
  }

  lemma Prime930817()
    ensures IsPrime(930817)
  {
    ProthPrime(930817, 179903,
      Sq(34770, 582319, Sq(364298, 646295, Sq(448742, 544811, Sq(318880, 100761, Sq(10907, 358102,
      Sq(137768, 245948, Sq(64986, 345142, Sq(127976, 763772, Sq(626704, 930816, End))))))))));
  }

  lemma Prime1376257()
    ensures IsPrime(1376257)
  {
    ProthPrime(1376257, 284498,
      Sq(58811, 61577, Sq(2755, 138894, Sq(14017, 548867, Sq(218894, 583931, Sq(247755, 859726, Sq(537057, 339427,
      Sq(83713, 86088, Sq(5384, 1376056, Sq(1375855, 40401, Sq(1185, 1376256, End)))))))))));
  }

  lemma Prime2056193()
    ensures IsPrime(2056193)
  {
    ProthPrime(2056193, 849102,
      Sq(350635, 973849, Sq(461231, 1921218, Sq(1795103, 380645, Sq(70465, 976280, Sq(463537, 1103759,
      Sq(592494, 1914739, Sq(1783016, 420033, Sq(85803, 193110, Sq(18136, 355852, Sq(61584, 2056192, End)))))))))));
  }

  lemma Prime3082241()
    ensures IsPrime(3082241)
  {
    ProthPrime(3082241, 1698124,
      Sq(935561, 647175, Sq(135886, 2080099, Sq(1403787, 2003134, Sq(1301827, 1267649, Sq(521352, 1477369,
      Sq(708127, 1089554, Sq(385150, 2797766, Sq(2539546, 1788170, Sq(1037411, 1230849, Sq(491521, 3082240,
      End)))))))))));
  }

  lemma Prime4620289()
    ensures IsPrime(4620289)
  {
    ProthPrime(4620289, 2828536,
      Sq(1731626, 3343382, Sq(2419373, 739127, Sq(118241, 1130480, Sq(276602, 3852422, Sq(3212170, 1548954,
      Sq(519287, 2480173, Sq(1331357, 4007756, Sq(3476429, 1487555, Sq(478935, 1765810, Sq(674867, 4379537,
      Sq(4151329, 4620288, End))))))))))));
  }

  lemma Prime6885377()
    ensures IsPrime(6885377)
  {
    ProthPrime(6885377, 820338,
      Sq(97736, 5227772, Sq(3969223, 3331913, Sq(1612350, 6633619, Sq(6391066, 2195279, Sq(699925, 2391116,
      Sq(830373, 4569835, Sq(3033006, 2173963, Sq(686398, 6123323, Sq(5445610, 6717359, Sq(6553441, 2624,
      Sq(0, 6885376, End))))))))))));
  }

  lemma Prime10223617()
    ensures IsPrime(10223617)
  {
    ProthPrime(10223617, 5562975,
      Sq(3026980, 6663965, Sq(4343710, 2122155, Sq(440503, 7884674, Sq(6080830, 7124166, Sq(4964362, 5458202,
      Sq(2914034, 1531826, Sq(229516, 7214904, Sq(5091626, 5597974, Sq(3065188, 4759680, Sq(2215903, 10121249,
      Sq(10019905, 10223616, End))))))))))));
  }

  lemma Prime15298561()
    ensures IsPrime(15298561)
  {
    ProthPrime(15298561, 13011185,
      Sq(11065807, 11700498, Sq(8948662, 1972622, Sq(254353, 2668851, Sq(465584, 435577, Sq(12401, 9867968,
      Sq(6365094, 13619290, Sq(12124346, 13237994, Sq(11454965, 4338671, Sq(1230446, 12858035,
      Sq(10806837, 8999668, Sq(5294224, 15298560, End))))))))))));
  }

  lemma Prime22896641()
    ensures IsPrime(22896641)
  {
    ProthPrime(22896641, 16870928,
      Sq(12431002, 21516902, Sq(20220305, 7182099, Sq(2252843, 8645438, Sq(3264391, 9401213, Sq(3860077, 8570012,
      Sq(3207680, 8277264, Sq(2992277, 7084139, Sq(2191807, 7351034, Sq(2360071, 2447645, Sq(261652, 14135093,
      Sq(8726208, 2251321, Sq(221361, 22896640, End)))))))))))));
  }

  lemma Prime34324481()
    ensures IsPrime(34324481)
  {
    ProthPrime(34324481, 25462283,
      Sq(18888205, 21925484, Sq(14005363, 32442653, Sq(30663995, 19916814, Sq(11556750, 34113846,
      Sq(33904503, 19873773, Sq(11506855, 27438274, Sq(21933583, 27153653, Sq(21480903, 24358066,
      Sq(17285487, 9153109, Sq(2440806, 5194195, Sq(786018, 1791367, Sq(93489, 34324480, End)))))))))))));
  }

  lemma Prime51453953()
    ensures IsPrime(51453953)
  {
    ProthPrime(51453953, 49821760,
      Sq(48241342, 25572674, Sq(12709648, 24671732, Sq(11829885, 13094419, Sq(3332373, 45227092,
      Sq(39753794, 2728782, Sq(144716, 40941176, Sq(32576309, 20063499, Sq(7823383, 10940002, Sq(2326033, 51101555,
      Sq(50751570, 25961815, Sq(13099398, 29073931, Sq(16428153, 51453952, End)))))))))))));
  }

  lemma Prime77135873()
    ensures IsPrime(77135873)
  {
    ProthPrime(77135873, 71465657,
      Sq(66212255, 37718034, Sq(18443430, 14660766, Sq(2786486, 29494478, Sq(11277816, 49799116,
      Sq(32150436, 6190828, Sq(496868, 4379820, Sq(248688, 57247776, Sq(42487466, 75478358, Sq(73856460, 7586584,
      Sq(746167, 13840265, Sq(2483318, 33403611, Sq(14465399, 47680994, Sq(29473668, 77135872, End))))))))))))));
  }

  lemma Prime115621889()
    ensures IsPrime(115621889)
  {
    ProthPrime(115621889, 19608499,
      Sq(3325436, 40964397, Sq(14513530, 66915439, Sq(38726888, 30911289, Sq(8264073, 56547624,
      Sq(27655955, 20846381, Sq(3758558, 24921099, Sq(5371484, 48554525, Sq(20390100, 19076725,
      Sq(3147513, 38013568, Sq(12497904, 83069968, Sq(59682640, 6214064, Sq(333973, 2261099, Sq(44217, 115621888,
      End))))))))))))));
  }

  lemma Prime172769281()
    ensures IsPrime(172769281)
  {
    ProthPrime(172769281, 125412253,
      Sq(91036051, 126186678, Sq(92163824, 97985140, Sq(55571728, 170332032, Sq(167929165, 29268659,
      Sq(4958372, 34287749, Sq(6804738, 39833623, Sq(9184025, 125370104, Sq(90974870, 98002346,
      Sq(55591247, 47420309, Sq(13015541, 45259460, Sq(11856382, 126090258, Sq(92023032, 88426572,
      Sq(45258384, 172769280, End))))))))))))));
  }

  lemma Prime259145729()
    ensures IsPrime(259145729)
  {
    ProthPrime(259145729, 178310018,
      Sq(122689510, 9557534, Sq(352490, 178145946, Sq(122463828, 93044304, Sq(33406850, 10000766,
      Sq(385942, 99645038, Sq(38314864, 235205588, Sq(213477061, 28803275, Sq(3201398, 32196483,
      Sq(4000118, 22373267, Sq(1931589, 36719908, Sq(5203063, 89360537, Sq(30813957, 222788716,
      Sq(191532432, 259145728, End))))))))))))));
  }

  lemma Prime388694017()
    ensures IsPrime(388694017)
  {
    ProthPrime(388694017, 319165511,
      Sq(262074071, 3357914, Sq(29008, 350386260, Sq(315853925, 303320875, Sq(236699175, 59429650,
      Sq(9086538, 343279354, Sq(303170899, 312846033, Sq(251798679, 348033546, Sq(311626482, 49175922,
      Sq(6221529, 205658091, Sq(108813741, 299676684, Sq(231045786, 261973494, Sq(176565906, 290183634,
      Sq(216639664, 199755668, Sq(102657424, 388694016, End)))))))))))))));
  }

  lemma Prime582844417()
    ensures IsPrime(582844417)
  {
    ProthPrime(582844417, 12979522,
      Sq(289044, 309681136, Sq(164542034, 115526318, Sq(22898615, 240854669, Sq(99530800, 479555961,
      Sq(394571712, 285301617, Sq(139654786, 335384927, Sq(192989837, 225605300, Sq(87326480, 63827840,
      Sq(6989846, 442275818, Sq(335609115, 215508169, Sq(79684680, 47301001, Sq(3838734, 15353923,
      Sq(404469, 452990356, Sq(352066960, 582844416, End)))))))))))))));
  }

  lemma Prime874217473()
    ensures IsPrime(874217473)
  {
    ProthPrime(874217473, 579129986,
      Sq(383647720, 383748636, Sq(168451238, 23778922, Sq(646792, 263685468, Sq(79534015, 423534929,
      Sq(205191318, 579535627, Sq(384185346, 618532471, Sq(437628427, 116460870, Sq(15514599, 708768573,
      Sq(574631491, 104214086, Sq(12423196, 707111688, Sq(571948004, 561935452, Sq(361204691, 12678461,
      Sq(183871, 132350538, Sq(20036964, 874217472, End)))))))))))))));
  }

  lemma Prime1311047681()
    ensures IsPrime(1311047681)
  {
    ProthPrime(1311047681, 1063402771,
      Sq(862535718, 506908483, Sq(195993032, 41602497, Sq(1320140, 1271039669, Sq(1232252543, 1265126778,
      Sq(1220814305, 910784579, Sq(632721876, 1096437685, Sq(916957952, 544049913, Sq(225766241, 1124170448,
      Sq(963930766, 747667058, Sq(426381158, 1200380766, Sq(1099055361, 1053078915, Sq(845869465, 700616560,
      Sq(374405577, 666916663, Sq(339253744, 1045287905, Sq(833399745, 1311047680, End))))))))))))))));
  }

  lemma Prime1966473217()
    ensures IsPrime(1966473217)
  {
    ProthPrime(1966473217, 1699403982,
      Sq(1468605760, 665526404, Sq(225238457, 1292265047, Sq(849210117, 1011975820, Sq(520777527, 1403678041,
      Sq(1001952137, 659182952, Sq(220965208, 786600168, Sq(314644419, 1455602301, Sq(1077450758, 433146115,
      Sq(95407125, 916122100, Sq(426794372, 404075276, Sq(83030283, 955045765, Sq(463831597, 545597676,
      Sq(151375986, 1890634014, Sq(1817719633, 584182835, Sq(173543977, 1966473216, End))))))))))))))));
  }

  lemma Prime2949316609()
    ensures IsPrime(2949316609)
  {
    ProthPrime(2949316609, 1909032939,
      Sq(1235678377, 1518714128, Sq(782043065, 2029033799, Sq(1395909189, 1710952300, Sq(992554601, 2806621991,
      Sq(2670831261, 2461090132, Sq(2053684104, 261294088, Sq(23149295, 193611089, Sq(12709810, 53531631,
      Sq(971626, 2817983927, Sq(2692499472, 337010881, Sq(38509373, 521320004, Sq(92148311, 2446962617,
      Sq(2030174051, 1220375630, Sq(504970091, 1863355481, Sq(1177253617, 2949316608, End))))))))))))))));
  }

  lemma BracketThousands(m: nat) returns (p: nat)
    requires 466 <= m < 19202
    ensures Brackets(p, m)
  {
    if m < 514 {
      p := 257;
      Prime257();
    } else if m < 706 {
      p := 353;
      Prime353();
    } else if m < 898 {
      p := 449;
      Prime449();
    } else if m < 1346 {
      p := 673;
      Prime673();
    } else if m < 1858 {
      p := 929;
      Prime929();
    } else if m < 2434 {
      p := 1217;
      Prime1217();
    } else if m < 3202 {
      p := 1601;
      Prime1601();
    } else if m < 4226 {
      p := 2113;
      Prime2113();
    } else if m < 6274 {
      p := 3137;
      Prime3137();
    } else if m < 8962 {
      p := 4481;
      Prime4481();
    } else if m < 13058 {
      p := 6529;
      Prime6529();
    } else {
      p := 9601;
      Prime9601();
    }
  }

  lemma BracketHundredThousands(m: nat) returns (p: nat)
    requires 19202 <= m < 835586
    ensures Brackets(p, m)
  {
    if m < 28162 {
      p := 14081;
      Prime14081();
    } else if m < 38914 {
      p := 19457;
      Prime19457();
    } else if m < 53762 {
      p := 26881;
      Prime26881();
    } else if m < 80386 {
      p := 40193;
      Prime40193();
    } else if m < 120322 {
      p := 60161;
      Prime60161();
    } else if m < 175106 {
      p := 87553;
      Prime87553();
    } else if m < 250882 {
      p := 125441;
      Prime125441();
    } else if m < 374786 {
      p := 187393;
      Prime187393();
    } else if m < 559106 {
      p := 279553;
      Prime279553();
    } else {
      p := 417793;
      Prime417793();
    }
  }

  lemma BracketMillions(m: nat) returns (p: nat)
    requires 835586 <= m < 30597122
    ensures Brackets(p, m)
  {
    if m < 1247234 {
      p := 623617;
      Prime623617();
    } else if m < 1861634 {
      p := 930817;
      Prime930817();
    } else if m < 2752514 {
      p := 1376257;
      Prime1376257();
    } else if m < 4112386 {
      p := 2056193;
      Prime2056193();
    } else if m < 6164482 {
      p := 3082241;
      Prime3082241();
    } else if m < 9240578 {
      p := 4620289;
      Prime4620289();
    } else if m < 13770754 {
      p := 6885377;
      Prime6885377();
    } else if m < 20447234 {
      p := 10223617;
      Prime10223617();
    } else {
      p := 15298561;
      Prime15298561();
    }
  }

  lemma BracketBillions(m: nat) returns (p: nat)
    requires 30597122 <= m < 5898633218
    ensures Brackets(p, m)
  {
    if m < 45793282 {
      p := 22896641;
      Prime22896641();
    } else if m < 68648962 {
      p := 34324481;
      Prime34324481();
    } else if m < 102907906 {
      p := 51453953;
      Prime51453953();
    } else if m < 154271746 {
      p := 77135873;
      Prime77135873();
    } else if m < 231243778 {
      p := 115621889;
      Prime115621889();
    } else if m < 345538562 {
      p := 172769281;
      Prime172769281();
    } else if m < 518291458 {
      p := 259145729;
      Prime259145729();
    } else if m < 777388034 {
      p := 388694017;
      Prime388694017();
    } else if m < 1165688834 {
      p := 582844417;
      Prime582844417();
    } else if m < 1748434946 {
      p := 874217473;
      Prime874217473();
    } else if m < 2622095362 {
      p := 1311047681;
      Prime1311047681();
    } else if m < 3932946434 {
      p := 1966473217;
      Prime1966473217();
    } else {
      p := 2949316609;
      Prime2949316609();
    }
  }

  lemma Bracket(m: nat) returns (p: nat)
    requires 5 <= m <= 0x1_0000_0000
    ensures Brackets(p, m)
  {
    if m < 466 {
      p := BracketSmall(m);
    } else if m < 19202 {
      p := BracketThousands(m);
    } else if m < 835586 {
      p := BracketHundredThousands(m);
    } else if m < 30597122 {
      p := BracketMillions(m);
    } else {
      p := BracketBillions(m);
    }
  }
}
