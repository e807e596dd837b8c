/** Where the constants of MD4, MD5 and SHA-1 come from: RFC 1320, RFC 1321 and RFC 3174 say it in words. */
module DigestConstants {
  import opened Bytes
  import Digest
  import Md4
  import Md5
  import Sha1

  // ----- Initial registers -----

  /** The hexadecimal digits 0 to f upwards and then downwards. */
  const COUNTING: seq<Byte> :=
    [0x01, 0x23, 0x45, 0x67, 0x89, 0xab, 0xcd, 0xef, 0xfe, 0xdc, 0xba, 0x98, 0x76, 0x54, 0x32, 0x10]

  lemma CountsUpAndDown(i: nat)
    requires i < 16
    ensures COUNTING[i] as int == if i < 8 then 16 * (2 * i) + 2 * i + 1 else 16 * (31 - 2 * i) + 30 - 2 * i
  {
    match i
    case 0 => case 1 => case 2 => case 3 => case 4 => case 5 => case 6 => case 7 =>
    case 8 => case 9 => case 10 => case 11 => case 12 => case 13 => case 14 => case _ =>
  }

  /** Written with the lowest byte first, the initial registers of MD4 and MD5 are these digits. */
  lemma InitialRegisters()
    ensures Digest.Output(Md5.ALGORITHM, Md5.ALGORITHM.initial) == COUNTING
    ensures Md4.ALGORITHM.initial == Md5.ALGORITHM.initial
  {
    hide Md4.Compress, Md5.Compress;
    var r := Md5.ALGORITHM.initial;
    FourWords(Md5.ALGORITHM, r);
  }

  lemma FourWords(alg: Digest.Algorithm, r: Digest.Registers)
    requires |r| == 4
    ensures Digest.Output(alg, r)
         == Digest.RegisterBytes(alg, r[0]) + Digest.RegisterBytes(alg, r[1])
            + Digest.RegisterBytes(alg, r[2]) + Digest.RegisterBytes(alg, r[3])
  {
    hide Digest.RegisterBytes;
    assert r[..3][..2] == r[..2] && r[..2][..1] == r[..1] && r[..1][..0] == [];
    assert Digest.Output(alg, r[..1]) == Digest.RegisterBytes(alg, r[0]);
    assert Digest.Output(alg, r[..2]) == Digest.RegisterBytes(alg, r[0]) + Digest.RegisterBytes(alg, r[1]);
  }

  /** SHA-1 has the same four, and a fifth whose bytes go down and up. */
  lemma InitialRegistersSha1()
    ensures Sha1.ALGORITHM.initial == Md5.ALGORITHM.initial + [Sha1.ALGORITHM.initial[4]]
    ensures BitsLE(Sha1.ALGORITHM.initial[4]) == [0xf0, 0xe1, 0xd2, 0xc3]
  {
    hide Sha1.Compress, Md5.Compress;
  }

  // ----- Square roots -----

  /** x is the integer part of 2^30 times the square root of n. */
  predicate IsRoot(x: int, n: int) {
    x * x <= n * 0x1000_0000_0000_0000 < (x + 1) * (x + 1)
  }

  /** SHA-1 takes the roots of 2, 3, 5 and 10, each for twenty rounds. */
  lemma RootsSha1(t: nat)
    requires t < 80
    ensures IsRoot(Sha1.K(t) as int, if t < 20 then 2 else if t < 40 then 3 else if t < 60 then 5 else 10)
  {
  }

  /** MD4 takes those of 2 and 3 in its second and third round, and nothing in its first. */
  lemma RootsMd4(i: nat)
    requires i < 48
    ensures if i < 16 then Md4.Constant(i) == 0 else IsRoot(Md4.Constant(i) as int, if i < 32 then 2 else 3)
  {
  }

  // ----- Sines -----

  /** Numbers with 24 decimal places. */
  const SCALE: int := 1000000000000000000000000

  function Factorial(n: nat): (f: nat)
    ensures f > 0
  {
    if n == 0 then 1 else n * Factorial(n - 1)
  }

  /** The first n terms of the power series of the sine and of the cosine at 1. */
  function SineSeries(n: nat): int {
    if n == 0 then 0 else SineSeries(n - 1) + (if n % 2 == 1 then 1 else -1) * (SCALE / Factorial(2 * n - 1))
  }

  function CosineSeries(n: nat): int {
    if n == 0 then 0 else CosineSeries(n - 1) + (if n % 2 == 1 then 1 else -1) * (SCALE / Factorial(2 * n - 2))
  }

  const SINE_1: int := 841470984807896506652504
  const COSINE_1: int := 540302305868139717400936

  /** Sine and cosine of n, from those of 1 by the addition theorem. */
  function Angle(n: nat): (int, int) {
    if n == 0 then (0, SCALE)
    else
      var (s, c) := Angle(n - 1);
      ((s * COSINE_1 + c * SINE_1) / SCALE, (c * COSINE_1 - s * SINE_1) / SCALE)
  }

  /** The integer part of 2^32 times the absolute value of a number. */
  function Scaled(s: int): int {
    (if s < 0 then -s else s) * 0x1_0000_0000 / SCALE
  }

  lemma Factorials()
    ensures Factorial(0) == 1
    ensures Factorial(1) == 1
    ensures Factorial(2) == 2
    ensures Factorial(3) == 6
    ensures Factorial(4) == 24
    ensures Factorial(5) == 120
    ensures Factorial(6) == 720
    ensures Factorial(7) == 5040
    ensures Factorial(8) == 40320
    ensures Factorial(9) == 362880
    ensures Factorial(10) == 3628800
    ensures Factorial(11) == 39916800
    ensures Factorial(12) == 479001600
    ensures Factorial(13) == 6227020800
    ensures Factorial(14) == 87178291200
    ensures Factorial(15) == 1307674368000
    ensures Factorial(16) == 20922789888000
    ensures Factorial(17) == 355687428096000
    ensures Factorial(18) == 6402373705728000
    ensures Factorial(19) == 121645100408832000
    ensures Factorial(20) == 2432902008176640000
    ensures Factorial(21) == 51090942171709440000
    ensures Factorial(22) == 1124000727777607680000
    ensures Factorial(23) == 25852016738884976640000
    ensures Factorial(24) == 620448401733239439360000
    ensures Factorial(25) == 15511210043330985984000000
  {
    assert Factorial(1) == 1 * Factorial(0);
    assert Factorial(2) == 2 * Factorial(1);
    assert Factorial(3) == 3 * Factorial(2);
    assert Factorial(4) == 4 * Factorial(3);
    assert Factorial(5) == 5 * Factorial(4);
    assert Factorial(6) == 6 * Factorial(5);
    assert Factorial(7) == 7 * Factorial(6);
    assert Factorial(8) == 8 * Factorial(7);
    assert Factorial(9) == 9 * Factorial(8);
    assert Factorial(10) == 10 * Factorial(9);
    assert Factorial(11) == 11 * Factorial(10);
    assert Factorial(12) == 12 * Factorial(11);
    assert Factorial(13) == 13 * Factorial(12);
    assert Factorial(14) == 14 * Factorial(13);
    assert Factorial(15) == 15 * Factorial(14);
    assert Factorial(16) == 16 * Factorial(15);
    assert Factorial(17) == 17 * Factorial(16);
    assert Factorial(18) == 18 * Factorial(17);
    assert Factorial(19) == 19 * Factorial(18);
    assert Factorial(20) == 20 * Factorial(19);
    assert Factorial(21) == 21 * Factorial(20);
    assert Factorial(22) == 22 * Factorial(21);
    assert Factorial(23) == 23 * Factorial(22);
    assert Factorial(24) == 24 * Factorial(23);
    assert Factorial(25) == 25 * Factorial(24);
  }

  /** Thirteen terms give all places. */
  lemma SeriesAtOne()
    ensures SineSeries(13) == SINE_1 && CosineSeries(13) == COSINE_1
  {
    hide Factorial;
    Factorials();
    assert SineSeries(1) == 1000000000000000000000000 && CosineSeries(1) == 1000000000000000000000000;
    assert SineSeries(2) == 833333333333333333333334 && CosineSeries(2) == 500000000000000000000000;
    assert SineSeries(3) == 841666666666666666666667 && CosineSeries(3) == 541666666666666666666666;
    assert SineSeries(4) == 841468253968253968253969 && CosineSeries(4) == 540277777777777777777778;
    assert SineSeries(5) == 841471009700176366843034 && CosineSeries(5) == 540302579365079365079365;
    assert SineSeries(6) == 841470984648067981401316 && CosineSeries(6) == 540302303791887125220459;
    assert SineSeries(7) == 841470984808658419769532 && CosineSeries(7) == 540302305879562824007268;
    assert SineSeries(8) == 841470984807893703396351 && CosineSeries(8) == 540302305868092078409539;
    assert SineSeries(9) == 841470984807896514853605 && CosineSeries(9) == 540302305868139873182862;
    assert SineSeries(10) == 841470984807896506632970 && CosineSeries(10) == 540302305868139716990793;
    assert SineSeries(11) == 841470984807896506652542 && CosineSeries(11) == 540302305868139717401824;
    assert SineSeries(12) == 841470984807896506652504 && CosineSeries(12) == 540302305868139717400935;
    assert SineSeries(13) == 841470984807896506652504 && CosineSeries(13) == 540302305868139717400936;
  }

  lemma Turn(n: nat, s: int, c: int, s': int, c': int)
    requires Angle(n) == (s, c)
    requires s' == (s * COSINE_1 + c * SINE_1) / SCALE && c' == (c * COSINE_1 - s * SINE_1) / SCALE
    ensures Angle(n + 1) == (s', c')
  {
  }

  lemma Sines0()
    requires Angle(0) == (0, 1000000000000000000000000)
    ensures Angle(8) == (989358246623381777808131, -145500033808613525868853)
    ensures forall i :: 0 <= i < 8 ==> Md5.Constant(i) as int == Scaled(Angle(i + 1).0)
  {
    hide Angle;
    Turn(0, 0, 1000000000000000000000000,
         841470984807896506652504, 540302305868139717400936);
    Turn(1, 841470984807896506652504, 540302305868139717400936,
         909297426825681695396020, -416146836547142386997572);
    Turn(2, 909297426825681695396020, -416146836547142386997572,
         141120008059867222100740, -989992496600445457271577);
    Turn(3, 141120008059867222100740, -989992496600445457271577,
         -756802495307928251372647, -653643620863611914639167);
    Turn(4, -756802495307928251372647, -653643620863611914639167,
         -958924274663138468893159, 283662185463226264466648);
    Turn(5, -958924274663138468893159, 283662185463226264466648,
         -279415498198925872811550, 960170286650366020545662);
    Turn(6, -279415498198925872811550, 960170286650366020545662,
         656986598718789090397011, 753902254343304638141198);
    Turn(7, 656986598718789090397011, 753902254343304638141198,
         989358246623381777808131, -145500033808613525868853);
  }

  lemma Sines1()
    requires Angle(8) == (989358246623381777808131, -145500033808613525868853)
    ensures Angle(16) == (-287903316665065294784484, -957659480323384641899648)
    ensures forall i :: 8 <= i < 16 ==> Md5.Constant(i) as int == Scaled(Angle(i + 1).0)
  {
    hide Angle;
    Turn(8, 989358246623381777808131, -145500033808613525868853,
         412118485241756569756265, -911130261884676988368309);
    Turn(9, 412118485241756569756265, -911130261884676988368309,
         -544021110889369813404766, -839071529076452452258866);
    Turn(10, -544021110889369813404766, -839071529076452452258866,
         -999990206550703457051578, 4425697988050785748370);
    Turn(11, -999990206550703457051578, 4425697988050785748370,
         -536572918000434971665369, 843853958732492104653976);
    Turn(12, -536572918000434971665369, 843853958732492104653976,
         420167036826640921868977, 907446781450196213852693);
    Turn(13, 420167036826640921868977, 907446781450196213852693,
         990607355694870307875373, 136737218207833594248912);
    Turn(14, 990607355694870307875373, 136737218207833594248912,
         650287840157116865829735, -759687912858821273848173);
    Turn(15, 650287840157116865829735, -759687912858821273848173,
         -287903316665065294784484, -957659480323384641899648);
  }

  lemma Sines2()
    requires Angle(16) == (-287903316665065294784484, -957659480323384641899648)
    ensures Angle(24) == (-905578362006623845135804, 424179007336996975937093)
    ensures forall i :: 16 <= i < 24 ==> Md5.Constant(i) as int == Scaled(Angle(i + 1).0)
  {
    hide Angle;
    Turn(16, -287903316665065294784484, -957659480323384641899648,
         -961397491879556857261663, -275163338051596922220325);
    Turn(17, -961397491879556857261663, -275163338051596922220325,
         -750987246771676103750156, 660316708244080144816133);
    Turn(18, -750987246771676103750156, 660316708244080144816133,
         149877209662952329754268, 988704618186669252898371);
    Turn(19, 149877209662952329754268, 988704618186669252898371,
         912945250727627654376132, 408082061813391986062252);
    Turn(20, 912945250727627654376132, 408082061813391986062252,
         836655638536056031866484, -547729260224268421384309);
    Turn(21, 836655638536056031866484, -547729260224268421384309,
         -8851309290403875921722, -999960826394637126454199);
    Turn(22, -8851309290403875921722, -999960826394637126454199,
         -846220404175170635241366, -532833020333397555215744);
    Turn(23, -846220404175170635241366, -532833020333397555215744,
         -905578362006623845135804, 424179007336996975937093);
  }

  lemma Sines3()
    requires Angle(24) == (-905578362006623845135804, 424179007336996975937093)
    ensures Angle(32) == (551426681241690550661614, 834223360506510272215530)
    ensures forall i :: 24 <= i < 32 ==> Md5.Constant(i) as int == Scaled(Angle(i + 1).0)
  {
    hide Angle;
    Turn(24, -905578362006623845135804, 424179007336996975937093,
         -132351750097773028901975, 991202811863473598083327);
    Turn(25, -132351750097773028901975, 991202811863473598083327,
         762558450479602737515868, 646919322328640342721375);
    Turn(26, 762558450479602737515868, 646919322328640342721375,
         956375928404503013432357, -292138808733836193371449);
    Turn(27, 956375928404503013432357, -292138808733836193371449,
         270905788307869019986313, -962605866313566601975493);
    Turn(28, 270905788307869019986313, -962605866313566601975493,
         -663633884212967502151225, -748057529689000351765188);
    Turn(29, -663633884212967502151225, -748057529689000351765188,
         -988031624092861789987775, 154251449887584050718709);
    Turn(30, -988031624092861789987775, 154251449887584050718709,
         -404037645323065006048745, 914742357804531278962484);
    Turn(31, -404037645323065006048745, 914742357804531278962484,
         551426681241690550661614, 834223360506510272215530);
  }

  lemma Sines4()
    requires Angle(32) == (551426681241690550661614, 834223360506510272215530)
    ensures Angle(40) == (745113160479348786987704, -666938061652261844384163)
    ensures forall i :: 32 <= i < 40 ==> Md5.Constant(i) as int == Scaled(Angle(i + 1).0)
  {
    hide Angle;
    Turn(32, 551426681241690550661614, 834223360506510272215530,
         999911860107267145728118, -13276747223059478915267);
    Turn(33, 999911860107267145728118, -13276747223059478915267,
         529082686120023820832465, -848570274784605186600028);
    Turn(34, 529082686120023820832465, -848570274784605186600028,
         -428182669496151004406814, -903692205091506759847317);
    Turn(35, -428182669496151004406814, -903692205091506759847317,
         -991778853443115736835334, -127963689627404681028283);
    Turn(36, -991778853443115736835334, -127963689627404681028283,
         -643538133356999460685657, 765414051945343356491145);
    Turn(37, -643538133356999460685657, 765414051945343356491145,
         296368578709385317392358, 955073644047294857586560);
    Turn(38, 296368578709385317392358, 955073644047294857586560,
         963795386284087753260719, 266642932359937251526785);
    Turn(39, 963795386284087753260719, 266642932359937251526785,
         745113160479348786987704, -666938061652261844384163);
  }

  lemma Sines5()
    requires Angle(40) == (745113160479348786987704, -666938061652261844384163)
    ensures Angle(48) == (-768254661323666799045048, -640144339469199731312923)
    ensures forall i :: 40 <= i < 48 ==> Md5.Constant(i) as int == Scaled(Angle(i + 1).0)
  {
    hide Angle;
    Turn(40, 745113160479348786987704, -666938061652261844384163,
         -158622668804708987103381, -987339277523826458228860);
    Turn(41, -158622668804708987103381, -987339277523826458228860,
         -916521547915633785899055, -399985314988351293954672);
    Turn(42, -916521547915633785899055, -399985314988351293954672,
         -831774742628598288209585, 555113301520625677044955);
    Turn(43, -831774742628598288209585, 555113301520625677044955,
         17701925105413577808015, 999843308647691220069056);
    Turn(44, 17701925105413577808015, 999843308647691220069056,
         850903524534118424862453, 525321988817729696047437);
    Turn(45, 850903524534118424862453, 525321988817729696047437,
         901788347648809185033309, -432177944884778294952855);
    Turn(46, 901788347648809185033309, -432177944884778294952855,
         123573122745224004061470, -992335469150928718279810);
    Turn(47, 123573122745224004061470, -992335469150928718279810,
         -768254661323666799045048, -640144339469199731312923);
  }

  lemma Sines6()
    requires Angle(48) == (-768254661323666799045048, -640144339469199731312923)
    ensures Angle(56) == (-521551002086911880187375, 853220107722584113969773)
    ensures forall i :: 48 <= i < 56 ==> Md5.Constant(i) as int == Scaled(Angle(i + 1).0)
  {
    hide Angle;
    Turn(48, -768254661323666799045048, -640144339469199731312923,
         -953752652759471818360454, 300592543743637083687106);
    Turn(49, -953752652759471818360454, 300592543743637083687106,
         -262374853703928785914342, 964966028492113274069027);
    Turn(50, -262374853703928785914342, 964966028492113274069027,
         670229175843374734494433, 742154196813782539467371);
    Turn(51, 670229175843374734494433, 742154196813782539467371,
         986627592040485296587612, -162990780795705481003409);
    Turn(52, 986627592040485296587612, -162990780795705481003409,
         395925150181834181503341, -918282786212118891199807);
    Turn(53, 395925150181834181503341, -918282786212118891199807,
         -558789048851616245817966, -829309832863150147727856);
    Turn(54, -558789048851616245817966, -829309832863150147727856,
         -999755173358619836598689, 22126756261955734563642);
    Turn(55, -999755173358619836598689, 22126756261955734563642,
         -521551002086911880187375, 853220107722584113969773);
  }

  lemma Sines7()
    requires Angle(56) == (-521551002086911880187375, 853220107722584113969773)
    ensures Angle(64) == (920026038196790683351633, 391857230429550005161653)
    ensures forall i :: 56 <= i < 64 ==> Md5.Constant(i) as int == Scaled(Angle(i + 1).0)
  {
    hide Angle;
    Turn(56, -521551002086911880187375, 853220107722584113969773,
         436164755247824959080632, 899866826969193786503020);
    Turn(57, 436164755247824959080632, 899866826969193786503020,
         992872648084537118165158, 119180135448819285435771);
    Turn(58, 992872648084537118165158, 119180135448819285435771,
         636738007139137880771209, -771080222975845229387536);
    Turn(59, 636738007139137880771209, -771080222975845229387536,
         -304810621102216705625750, -952412980415156292693851);
    Turn(60, -304810621102216705625750, -952412980415156292693851,
         -966117770008392947018373, -258101635938267445701141);
    Turn(61, -966117770008392947018373, -258101635938267445701141,
         -739180696649222867276007, 673507162323586252887942);
    Turn(62, -739180696649222867276007, 673507162323586252887942,
         167355700302806921527936, 985896581582549697438686);
    Turn(63, 167355700302806921527936, 985896581582549697438686,
         920026038196790683351633, 391857230429550005161653);
  }

  /** The constants of MD5 are the integer parts of 2^32 times the sines of 1 to 64. */
  lemma SinesMd5(i: nat)
    requires i < 64
    ensures Md5.Constant(i) as int == Scaled(Angle(i + 1).0)
  {
    assert Angle(0) == (0, SCALE);
    hide Angle, Scaled, Md5.Constant;
    Sines0();
    Sines1();
    Sines2();
    Sines3();
    Sines4();
    Sines5();
    Sines6();
    Sines7();
  }
}
