/** The table of cached powers of ten, and the choice of one for a binary exponent. */
module CachedPowers {
  import opened Arith
  import opened RealPowers
  import opened DiyFloats

  const COUNT: nat := 87

  // ---------------------------------------------------------------- the table, by eights

  function Row0(i: nat): DiyFp {
    if i == 0 then DiyFp(0xfa8fd5a0081c0288, -1220)
    else if i == 1 then DiyFp(0xbaaee17fa23ebf76, -1193)
    else if i == 2 then DiyFp(0x8b16fb203055ac76, -1166)
    else if i == 3 then DiyFp(0xcf42894a5dce35ea, -1140)
    else if i == 4 then DiyFp(0x9a6bb0aa55653b2d, -1113)
    else if i == 5 then DiyFp(0xe61acf033d1a45df, -1087)
    else if i == 6 then DiyFp(0xab70fe17c79ac6ca, -1060)
    else DiyFp(0xff77b1fcbebcdc4f, -1034)
  }

  function Row1(i: nat): DiyFp {
    if i == 0 then DiyFp(0xbe5691ef416bd60c, -1007)
    else if i == 1 then DiyFp(0x8dd01fad907ffc3c, -980)
    else if i == 2 then DiyFp(0xd3515c2831559a83, -954)
    else if i == 3 then DiyFp(0x9d71ac8fada6c9b5, -927)
    else if i == 4 then DiyFp(0xea9c227723ee8bcb, -901)
    else if i == 5 then DiyFp(0xaecc49914078536d, -874)
    else if i == 6 then DiyFp(0x823c12795db6ce57, -847)
    else DiyFp(0xc21094364dfb5637, -821)
  }

  function Row2(i: nat): DiyFp {
    if i == 0 then DiyFp(0x9096ea6f3848984f, -794)
    else if i == 1 then DiyFp(0xd77485cb25823ac7, -768)
    else if i == 2 then DiyFp(0xa086cfcd97bf97f4, -741)
    else if i == 3 then DiyFp(0xef340a98172aace5, -715)
    else if i == 4 then DiyFp(0xb23867fb2a35b28e, -688)
    else if i == 5 then DiyFp(0x84c8d4dfd2c63f3b, -661)
    else if i == 6 then DiyFp(0xc5dd44271ad3cdba, -635)
    else DiyFp(0x936b9fcebb25c996, -608)
  }

  function Row3(i: nat): DiyFp {
    if i == 0 then DiyFp(0xdbac6c247d62a584, -582)
    else if i == 1 then DiyFp(0xa3ab66580d5fdaf6, -555)
    else if i == 2 then DiyFp(0xf3e2f893dec3f126, -529)
    else if i == 3 then DiyFp(0xb5b5ada8aaff80b8, -502)
    else if i == 4 then DiyFp(0x87625f056c7c4a8b, -475)
    else if i == 5 then DiyFp(0xc9bcff6034c13053, -449)
    else if i == 6 then DiyFp(0x964e858c91ba2655, -422)
    else DiyFp(0xdff9772470297ebd, -396)
  }

  function Row4(i: nat): DiyFp {
    if i == 0 then DiyFp(0xa6dfbd9fb8e5b88f, -369)
    else if i == 1 then DiyFp(0xf8a95fcf88747d94, -343)
    else if i == 2 then DiyFp(0xb94470938fa89bcf, -316)
    else if i == 3 then DiyFp(0x8a08f0f8bf0f156b, -289)
    else if i == 4 then DiyFp(0xcdb02555653131b6, -263)
    else if i == 5 then DiyFp(0x993fe2c6d07b7fac, -236)
    else if i == 6 then DiyFp(0xe45c10c42a2b3b06, -210)
    else DiyFp(0xaa242499697392d3, -183)
  }

  function Row5(i: nat): DiyFp {
    if i == 0 then DiyFp(0xfd87b5f28300ca0e, -157)
    else if i == 1 then DiyFp(0xbce5086492111aeb, -130)
    else if i == 2 then DiyFp(0x8cbccc096f5088cc, -103)
    else if i == 3 then DiyFp(0xd1b71758e219652c, -77)
    else if i == 4 then DiyFp(0x9c40000000000000, -50)
    else if i == 5 then DiyFp(0xe8d4a51000000000, -24)
    else if i == 6 then DiyFp(0xad78ebc5ac620000, 3)
    else DiyFp(0x813f3978f8940984, 30)
  }

  function Row6(i: nat): DiyFp {
    if i == 0 then DiyFp(0xc097ce7bc90715b3, 56)
    else if i == 1 then DiyFp(0x8f7e32ce7bea5c70, 83)
    else if i == 2 then DiyFp(0xd5d238a4abe98068, 109)
    else if i == 3 then DiyFp(0x9f4f2726179a2245, 136)
    else if i == 4 then DiyFp(0xed63a231d4c4fb27, 162)
    else if i == 5 then DiyFp(0xb0de65388cc8ada8, 189)
    else if i == 6 then DiyFp(0x83c7088e1aab65db, 216)
    else DiyFp(0xc45d1df942711d9a, 242)
  }

  function Row7(i: nat): DiyFp {
    if i == 0 then DiyFp(0x924d692ca61be758, 269)
    else if i == 1 then DiyFp(0xda01ee641a708dea, 295)
    else if i == 2 then DiyFp(0xa26da3999aef774a, 322)
    else if i == 3 then DiyFp(0xf209787bb47d6b85, 348)
    else if i == 4 then DiyFp(0xb454e4a179dd1877, 375)
    else if i == 5 then DiyFp(0x865b86925b9bc5c2, 402)
    else if i == 6 then DiyFp(0xc83553c5c8965d3d, 428)
    else DiyFp(0x952ab45cfa97a0b3, 455)
  }

  function Row8(i: nat): DiyFp {
    if i == 0 then DiyFp(0xde469fbd99a05fe3, 481)
    else if i == 1 then DiyFp(0xa59bc234db398c25, 508)
    else if i == 2 then DiyFp(0xf6c69a72a3989f5c, 534)
    else if i == 3 then DiyFp(0xb7dcbf5354e9bece, 561)
    else if i == 4 then DiyFp(0x88fcf317f22241e2, 588)
    else if i == 5 then DiyFp(0xcc20ce9bd35c78a5, 614)
    else if i == 6 then DiyFp(0x98165af37b2153df, 641)
    else DiyFp(0xe2a0b5dc971f303a, 667)
  }

  function Row9(i: nat): DiyFp {
    if i == 0 then DiyFp(0xa8d9d1535ce3b396, 694)
    else if i == 1 then DiyFp(0xfb9b7cd9a4a7443c, 720)
    else if i == 2 then DiyFp(0xbb764c4ca7a44410, 747)
    else if i == 3 then DiyFp(0x8bab8eefb6409c1a, 774)
    else if i == 4 then DiyFp(0xd01fef10a657842c, 800)
    else if i == 5 then DiyFp(0x9b10a4e5e9913129, 827)
    else if i == 6 then DiyFp(0xe7109bfba19c0c9d, 853)
    else DiyFp(0xac2820d9623bf429, 880)
  }

  function Row10(i: nat): DiyFp {
    if i == 0 then DiyFp(0x80444b5e7aa7cf85, 907)
    else if i == 1 then DiyFp(0xbf21e44003acdd2d, 933)
    else if i == 2 then DiyFp(0x8e679c2f5e44ff8f, 960)
    else if i == 3 then DiyFp(0xd433179d9c8cb841, 986)
    else if i == 4 then DiyFp(0x9e19db92b4e31ba9, 1013)
    else if i == 5 then DiyFp(0xeb96bf6ebadf77d9, 1039)
    else DiyFp(0xaf87023b9bf0ee6b, 1066)
  }

  function GetCachedPowerByIndex(i: nat): DiyFp
    requires i < COUNT
  {
    var row, column := i / 8, i % 8;
    if row == 0 then Row0(column)
    else if row == 1 then Row1(column)
    else if row == 2 then Row2(column)
    else if row == 3 then Row3(column)
    else if row == 4 then Row4(column)
    else if row == 5 then Row5(column)
    else if row == 6 then Row6(column)
    else if row == 7 then Row7(column)
    else if row == 8 then Row8(column)
    else if row == 9 then Row9(column)
    else Row10(column)
  }

  /** The decimal exponent of an entry. */
  function TenAt(i: nat): int {
    8 * i - 348
  }

  // ---------------------------------------------------------------- accuracy, in natural numbers

  /** An entry below 1: within half a unit of its power of ten, both multiplied by powers of 2
      and 5 that make them natural. */
  ghost predicate NearBelow(i: nat)
    requires i < 44
  {
    var m: nat, n: int := 348 - 8 * i, 8 * i - 347 - GetCachedPowerByIndex(i).e;
    n >= 0 && Pow(2, n) - Pow(5, m) <= 2 * GetCachedPowerByIndex(i).f * Pow(5, m) <= Pow(2, n) + Pow(5, m)
  }

  /** An entry above 1. */
  ghost predicate NearAbove(i: nat)
    requires 44 <= i < COUNT
  {
    var m: nat, n: int := 8 * i - 348, GetCachedPowerByIndex(i).e - (8 * i - 348);
    if n < 0 then GetCachedPowerByIndex(i).f == Pow(5, m) * Pow(2, 0 - n)
    else 2 * Pow(5, m) - Pow(2, n) <= 2 * GetCachedPowerByIndex(i).f * Pow(2, n) <= 2 * Pow(5, m) + Pow(2, n)
  }

  lemma Eight(m: nat)
    ensures Pow(5, m + 8) == 390625 * Pow(5, m)
  {
    assert Pow(5, 4) == 625 == 5 * Pow(5, 3);
    hide Pow;
    PowAdd(5, m, 4);
    PowAdd(5, m + 4, 4);
  }

  lemma FirstBelow()
    ensures Pow(5, 4) == 625 && Pow(2, 74) == 0x400_0000_0000_0000_0000
  {
    assert Pow(5, 4) == 625 == 5 * Pow(5, 3);
    hide Pow;
    PowersOfTwo();
    PowAdd(2, 64, 10);
  }

  lemma FirstAbove()
    ensures Pow(5, 4) == 625 && Pow(5, 12) == 244140625 && Pow(5, 20) == 95367431640625
    ensures Pow(5, 28) == 0x204fce5e3e2502611
    ensures Pow(2, 2) == 4 && Pow(2, 17) == 0x2_0000 && Pow(2, 36) == 0x10_0000_0000 && Pow(2, 54) == 0x40_0000_0000_0000
  {
    assert Pow(5, 4) == 625 == 5 * Pow(5, 3) && Pow(2, 2) == 4;
    hide Pow;
    SmallPowersOfTwo();
    PowAdd(2, 8, 8);
    PowAdd(2, 16, 1);
    Eighteen(17);
    Eighteen(36);
    Eight(4);
    Eight(12);
    Eight(20);
  }

  lemma BelowIs(i: nat, f: U64, e: int, five: nat, two: nat)
    requires i < 44 && GetCachedPowerByIndex(i) == DiyFp(f, e) && 8 * i - 347 - e >= 0
    requires five == Pow(5, 348 - 8 * i) && two == Pow(2, 8 * i - 347 - e)
    requires two - five <= 2 * f * five <= two + five
    ensures NearBelow(i)
  {
  }

  lemma AboveIs(i: nat, f: U64, e: int, five: nat, two: nat)
    requires 47 <= i < COUNT && GetCachedPowerByIndex(i) == DiyFp(f, e) && e - (8 * i - 348) >= 0
    requires five == Pow(5, 8 * i - 348) && two == Pow(2, e - (8 * i - 348))
    requires 2 * five - two <= 2 * f * two <= 2 * five + two
    ensures NearAbove(i)
  {
  }

  lemma ExactIs(i: nat, f: U64, e: int, five: nat, two: nat)
    requires 44 <= i < 47 && GetCachedPowerByIndex(i) == DiyFp(f, e) && 8 * i - 348 - e > 0
    requires five == Pow(5, 8 * i - 348) && two == Pow(2, 8 * i - 348 - e) && f == five * two
    ensures NearAbove(i)
  {
  }

  lemma Eighteen(n: nat)
    ensures Pow(2, n + 18) == 0x4_0000 * Pow(2, n) && Pow(2, n + 19) == 0x8_0000 * Pow(2, n)
  {
    hide Pow;
    SmallPowersOfTwo();
    PowAdd(2, n, 8);
    PowAdd(2, n + 8, 8);
    PowAdd(2, n + 16, 1);
    PowAdd(2, n + 17, 1);
    PowAdd(2, n + 18, 1);
  }

  lemma Below36()
    ensures Pow(5, 60) == 0x9f4f2726179a224501d762422c946590d91
    ensures Pow(2, 204) == 0x1000000000000000000000000000000000000000000000000000
    ensures NearBelow(43) && NearBelow(42) && NearBelow(41) && NearBelow(40) && NearBelow(39) && NearBelow(38) && NearBelow(37) && NearBelow(36)
  {
    hide Pow, NearBelow, NearAbove;
    FirstBelow();
    BelowIs(43, 0xd1b71758e219652c, -77, Pow(5, 4), Pow(2, 74));
    Eight(4); Eighteen(74);
    BelowIs(42, 0x8cbccc096f5088cc, -103, Pow(5, 12), Pow(2, 92));
    Eight(12); Eighteen(92);
    BelowIs(41, 0xbce5086492111aeb, -130, Pow(5, 20), Pow(2, 111));
    Eight(20); Eighteen(111);
    BelowIs(40, 0xfd87b5f28300ca0e, -157, Pow(5, 28), Pow(2, 130));
    Eight(28); Eighteen(130);
    BelowIs(39, 0xaa242499697392d3, -183, Pow(5, 36), Pow(2, 148));
    Eight(36); Eighteen(148);
    BelowIs(38, 0xe45c10c42a2b3b06, -210, Pow(5, 44), Pow(2, 167));
    Eight(44); Eighteen(167);
    BelowIs(37, 0x993fe2c6d07b7fac, -236, Pow(5, 52), Pow(2, 185));
    Eight(52); Eighteen(185);
    BelowIs(36, 0xcdb02555653131b6, -263, Pow(5, 60), Pow(2, 204));
  }

  lemma Below32()
    ensures Pow(5, 92) == 0x3117477e509c47668ee9742f4c93e0e502fb02174d9b8608f63511
    ensures Pow(2, 278) == 0x4000000000000000000000000000000000000000000000000000000000000000000000
    ensures NearBelow(35) && NearBelow(34) && NearBelow(33) && NearBelow(32)
  {
    hide Pow, NearBelow, NearAbove;
    Below36();
    Eight(60); Eighteen(204);
    BelowIs(35, 0x8a08f0f8bf0f156b, -289, Pow(5, 68), Pow(2, 222));
    Eight(68); Eighteen(222);
    BelowIs(34, 0xb94470938fa89bcf, -316, Pow(5, 76), Pow(2, 241));
    Eight(76); Eighteen(241);
    BelowIs(33, 0xf8a95fcf88747d94, -343, Pow(5, 84), Pow(2, 260));
    Eight(84); Eighteen(260);
    BelowIs(32, 0xa6dfbd9fb8e5b88f, -369, Pow(5, 92), Pow(2, 278));
  }

  lemma Below28()
    ensures Pow(5, 124) == 0xf209787bb47d6b84c0678c5dbd23a49a0612c3c5ce15e554dccc6ca29b3e9df0dc079c91
    ensures Pow(2, 352) == 0x10000000000000000000000000000000000000000000000000000000000000000000000000000000000000000
    ensures NearBelow(31) && NearBelow(30) && NearBelow(29) && NearBelow(28)
  {
    hide Pow, NearBelow, NearAbove;
    Below32();
    Eight(92); Eighteen(278);
    BelowIs(31, 0xdff9772470297ebd, -396, Pow(5, 100), Pow(2, 297));
    Eight(100); Eighteen(297);
    BelowIs(30, 0x964e858c91ba2655, -422, Pow(5, 108), Pow(2, 315));
    Eight(108); Eighteen(315);
    BelowIs(29, 0xc9bcff6034c13053, -449, Pow(5, 116), Pow(2, 334));
    Eight(116); Eighteen(334);
    BelowIs(28, 0x87625f056c7c4a8b, -475, Pow(5, 124), Pow(2, 352));
  }

  lemma Below24()
    ensures Pow(5, 156) == 0x4a955a2e7d4bd0596eca2d3a3df930c1cc3041571172f098338b9e6b5e4ff51f3b0ed73880d3c57b5c9816d4411
    ensures Pow(2, 427) == 0x80000000000000000000000000000000000000000000000000000000000000000000000000000000000000000000000000000000000
    ensures NearBelow(27) && NearBelow(26) && NearBelow(25) && NearBelow(24)
  {
    hide Pow, NearBelow, NearAbove;
    Below28();
    Eight(124); Eighteen(352);
    BelowIs(27, 0xb5b5ada8aaff80b8, -502, Pow(5, 132), Pow(2, 371));
    Eight(132); Eighteen(371);
    BelowIs(26, 0xf3e2f893dec3f126, -529, Pow(5, 140), Pow(2, 390));
    Eight(140); Eighteen(390);
    BelowIs(25, 0xa3ab66580d5fdaf6, -555, Pow(5, 148), Pow(2, 408));
    Eight(148); Eighteen(408);
    BelowIs(24, 0xdbac6c247d62a584, -582, Pow(5, 156), Pow(2, 427));
  }

  lemma Below20()
    ensures Pow(5, 188) == 0x16fb97ea6a9d37d9c1823dadaa715d65e4defae54f24ae0c791c2f84429d9e3a9215ce3c3037f6484785d46001ab29d6e6f730cb072b91
    ensures Pow(2, 501) == 0x200000000000000000000000000000000000000000000000000000000000000000000000000000000000000000000000000000000000000000000000000000
    ensures NearBelow(23) && NearBelow(22) && NearBelow(21) && NearBelow(20)
  {
    hide Pow, NearBelow, NearAbove;
    Below24();
    Eight(156); Eighteen(427);
    BelowIs(23, 0x936b9fcebb25c996, -608, Pow(5, 164), Pow(2, 445));
    Eight(164); Eighteen(445);
    BelowIs(22, 0xc5dd44271ad3cdba, -635, Pow(5, 172), Pow(2, 464));
    Eight(172); Eighteen(464);
    BelowIs(21, 0x84c8d4dfd2c63f3b, -661, Pow(5, 180), Pow(2, 482));
    Eight(180); Eighteen(482);
    BelowIs(20, 0xb23867fb2a35b28e, -688, Pow(5, 188), Pow(2, 501));
  }

  lemma Below16()
    ensures Pow(5, 220) == 0x71505aee4b8f981d172257324207eb0ef0144b2e1fac055e7cfc8e8a0ba063ec908059e41a047cf2c44e8767587f4c16a1c8387566126cba60c58d209ab55311
    ensures Pow(2, 575) == 0x800000000000000000000000000000000000000000000000000000000000000000000000000000000000000000000000000000000000000000000000000000000000000000000000
    ensures NearBelow(19) && NearBelow(18) && NearBelow(17) && NearBelow(16)
  {
    hide Pow, NearBelow, NearAbove;
    Below20();
    Eight(188); Eighteen(501);
    BelowIs(19, 0xef340a98172aace5, -715, Pow(5, 196), Pow(2, 520));
    Eight(196); Eighteen(520);
    BelowIs(18, 0xa086cfcd97bf97f4, -741, Pow(5, 204), Pow(2, 538));
    Eight(204); Eighteen(538);
    BelowIs(17, 0xd77485cb25823ac7, -768, Pow(5, 212), Pow(2, 557));
    Eight(212); Eighteen(557);
    BelowIs(16, 0x9096ea6f3848984f, -794, Pow(5, 220), Pow(2, 575));
  }

  lemma Below12()
    ensures Pow(5, 252) == 0x22eae3bbed90270686b4226db0bdd5238971ee216e919b8ddc75f98c79c1493901b965ea6cb3864ab6089b001002d65d20f971080ca85b3c2b071e5d1ca8f4c1fcb585e8be3e257ba91
    ensures Pow(2, 650) == 0x4000000000000000000000000000000000000000000000000000000000000000000000000000000000000000000000000000000000000000000000000000000000000000000000000000000000000000000
    ensures NearBelow(15) && NearBelow(14) && NearBelow(13) && NearBelow(12)
  {
    hide Pow, NearBelow, NearAbove;
    Below16();
    Eight(220); Eighteen(575);
    BelowIs(15, 0xc21094364dfb5637, -821, Pow(5, 228), Pow(2, 594));
    Eight(228); Eighteen(594);
    BelowIs(14, 0x823c12795db6ce57, -847, Pow(5, 236), Pow(2, 612));
    Eight(236); Eighteen(612);
    BelowIs(13, 0xaecc49914078536d, -874, Pow(5, 244), Pow(2, 631));
    Eight(244); Eighteen(631);
    BelowIs(12, 0xea9c227723ee8bcb, -901, Pow(5, 252), Pow(2, 650));
  }

  lemma Below8()
    ensures Pow(5, 284) == 0xac2820d9623bf429546345fa9fbdcd444ec0f65f43135bc21e3b9f42b859cc6542eee45b8ec4a834201fb157fe3fd95ef98af5567d1f39ad6f667d6814cb9dabae477528a717b1efe7398d63d078ea3ce6211
    ensures Pow(2, 724) == 0x10000000000000000000000000000000000000000000000000000000000000000000000000000000000000000000000000000000000000000000000000000000000000000000000000000000000000000000000000000000000000
    ensures NearBelow(11) && NearBelow(10) && NearBelow(9) && NearBelow(8)
  {
    hide Pow, NearBelow, NearAbove;
    Below12();
    Eight(252); Eighteen(650);
    BelowIs(11, 0x9d71ac8fada6c9b5, -927, Pow(5, 260), Pow(2, 668));
    Eight(260); Eighteen(668);
    BelowIs(10, 0xd3515c2831559a83, -954, Pow(5, 268), Pow(2, 687));
    Eight(268); Eighteen(687);
    BelowIs(9, 0x8dd01fad907ffc3c, -980, Pow(5, 276), Pow(2, 705));
    Eight(276); Eighteen(705);
    BelowIs(8, 0xbe5691ef416bd60c, -1007, Pow(5, 284), Pow(2, 724));
  }

  lemma Below4()
    ensures Pow(5, 316) == 0x350cc5e767232e1057e981a4a918547aef20a7e79f264046fcbd829924596ac30b7aeb1a5733e5195b792f32a12720ce71ca5f6024f94015294dd98dd0be2fdfe6eb1de14488a5566fc949e4e3ec3f33b2acf32b7d3f6e75f0f94991
    ensures Pow(2, 798) == 0x40000000000000000000000000000000000000000000000000000000000000000000000000000000000000000000000000000000000000000000000000000000000000000000000000000000000000000000000000000000000000000000000000000000
    ensures NearBelow(7) && NearBelow(6) && NearBelow(5) && NearBelow(4)
  {
    hide Pow, NearBelow, NearAbove;
    Below8();
    Eight(284); Eighteen(724);
    BelowIs(7, 0xff77b1fcbebcdc4f, -1034, Pow(5, 292), Pow(2, 743));
    Eight(292); Eighteen(743);
    BelowIs(6, 0xab70fe17c79ac6ca, -1060, Pow(5, 300), Pow(2, 761));
    Eight(300); Eighteen(761);
    BelowIs(5, 0xe61acf033d1a45df, -1087, Pow(5, 308), Pow(2, 780));
    Eight(308); Eighteen(780);
    BelowIs(4, 0x9a6bb0aa55653b2d, -1113, Pow(5, 316), Pow(2, 798));
  }

  lemma Below0()
    ensures Pow(5, 348) == 0x1058e617d839592c11e4dfb6f8786147a40a3a3d2bb9b5cd1a4314f4162a633bbeb8d1a9c68c37f5c9b4c53684c346e632aaca4ed77a47ba30e5abe0d3a6ca6e720edcde6142fae89bab1a0605d3ad33756a1a69f34c610827eca8a88d6968e27a7ebb87111
    ensures Pow(2, 873) == 0x200000000000000000000000000000000000000000000000000000000000000000000000000000000000000000000000000000000000000000000000000000000000000000000000000000000000000000000000000000000000000000000000000000000000000000000000000
    ensures NearBelow(3) && NearBelow(2) && NearBelow(1) && NearBelow(0)
  {
    hide Pow, NearBelow, NearAbove;
    Below4();
    Eight(316); Eighteen(798);
    BelowIs(3, 0xcf42894a5dce35ea, -1140, Pow(5, 324), Pow(2, 817));
    Eight(324); Eighteen(817);
    BelowIs(2, 0x8b16fb203055ac76, -1166, Pow(5, 332), Pow(2, 835));
    Eight(332); Eighteen(835);
    BelowIs(1, 0xbaaee17fa23ebf76, -1193, Pow(5, 340), Pow(2, 854));
    Eight(340); Eighteen(854);
    BelowIs(0, 0xfa8fd5a0081c0288, -1220, Pow(5, 348), Pow(2, 873));
  }

  lemma Above51()
    ensures Pow(5, 60) == 0x9f4f2726179a224501d762422c946590d91
    ensures Pow(2, 76) == 0x10000000000000000000
    ensures NearAbove(44) && NearAbove(45) && NearAbove(46) && NearAbove(47) && NearAbove(48) && NearAbove(49) && NearAbove(50) && NearAbove(51)
  {
    hide Pow, NearBelow, NearAbove;
    FirstAbove();
    ExactIs(44, 0x9c40000000000000, -50, Pow(5, 4), Pow(2, 54));
    ExactIs(45, 0xe8d4a51000000000, -24, Pow(5, 12), Pow(2, 36));
    ExactIs(46, 0xad78ebc5ac620000, 3, Pow(5, 20), Pow(2, 17));
    AboveIs(47, 0x813f3978f8940984, 30, Pow(5, 28), Pow(2, 2));
    Eight(28); Eighteen(2);
    AboveIs(48, 0xc097ce7bc90715b3, 56, Pow(5, 36), Pow(2, 20));
    Eight(36); Eighteen(20);
    AboveIs(49, 0x8f7e32ce7bea5c70, 83, Pow(5, 44), Pow(2, 39));
    Eight(44); Eighteen(39);
    AboveIs(50, 0xd5d238a4abe98068, 109, Pow(5, 52), Pow(2, 57));
    Eight(52); Eighteen(57);
    AboveIs(51, 0x9f4f2726179a2245, 136, Pow(5, 60), Pow(2, 76));
  }

  lemma Above55()
    ensures Pow(5, 92) == 0x3117477e509c47668ee9742f4c93e0e502fb02174d9b8608f63511
    ensures Pow(2, 150) == 0x40000000000000000000000000000000000000
    ensures NearAbove(52) && NearAbove(53) && NearAbove(54) && NearAbove(55)
  {
    hide Pow, NearBelow, NearAbove;
    Above51();
    Eight(60); Eighteen(76);
    AboveIs(52, 0xed63a231d4c4fb27, 162, Pow(5, 68), Pow(2, 94));
    Eight(68); Eighteen(94);
    AboveIs(53, 0xb0de65388cc8ada8, 189, Pow(5, 76), Pow(2, 113));
    Eight(76); Eighteen(113);
    AboveIs(54, 0x83c7088e1aab65db, 216, Pow(5, 84), Pow(2, 132));
    Eight(84); Eighteen(132);
    AboveIs(55, 0xc45d1df942711d9a, 242, Pow(5, 92), Pow(2, 150));
  }

  lemma Above59()
    ensures Pow(5, 124) == 0xf209787bb47d6b84c0678c5dbd23a49a0612c3c5ce15e554dccc6ca29b3e9df0dc079c91
    ensures Pow(2, 224) == 0x100000000000000000000000000000000000000000000000000000000
    ensures NearAbove(56) && NearAbove(57) && NearAbove(58) && NearAbove(59)
  {
    hide Pow, NearBelow, NearAbove;
    Above55();
    Eight(92); Eighteen(150);
    AboveIs(56, 0x924d692ca61be758, 269, Pow(5, 100), Pow(2, 169));
    Eight(100); Eighteen(169);
    AboveIs(57, 0xda01ee641a708dea, 295, Pow(5, 108), Pow(2, 187));
    Eight(108); Eighteen(187);
    AboveIs(58, 0xa26da3999aef774a, 322, Pow(5, 116), Pow(2, 206));
    Eight(116); Eighteen(206);
    AboveIs(59, 0xf209787bb47d6b85, 348, Pow(5, 124), Pow(2, 224));
  }

  lemma Above63()
    ensures Pow(5, 156) == 0x4a955a2e7d4bd0596eca2d3a3df930c1cc3041571172f098338b9e6b5e4ff51f3b0ed73880d3c57b5c9816d4411
    ensures Pow(2, 299) == 0x800000000000000000000000000000000000000000000000000000000000000000000000000
    ensures NearAbove(60) && NearAbove(61) && NearAbove(62) && NearAbove(63)
  {
    hide Pow, NearBelow, NearAbove;
    Above59();
    Eight(124); Eighteen(224);
    AboveIs(60, 0xb454e4a179dd1877, 375, Pow(5, 132), Pow(2, 243));
    Eight(132); Eighteen(243);
    AboveIs(61, 0x865b86925b9bc5c2, 402, Pow(5, 140), Pow(2, 262));
    Eight(140); Eighteen(262);
    AboveIs(62, 0xc83553c5c8965d3d, 428, Pow(5, 148), Pow(2, 280));
    Eight(148); Eighteen(280);
    AboveIs(63, 0x952ab45cfa97a0b3, 455, Pow(5, 156), Pow(2, 299));
  }

  lemma Above67()
    ensures Pow(5, 188) == 0x16fb97ea6a9d37d9c1823dadaa715d65e4defae54f24ae0c791c2f84429d9e3a9215ce3c3037f6484785d46001ab29d6e6f730cb072b91
    ensures Pow(2, 373) == 0x2000000000000000000000000000000000000000000000000000000000000000000000000000000000000000000000
    ensures NearAbove(64) && NearAbove(65) && NearAbove(66) && NearAbove(67)
  {
    hide Pow, NearBelow, NearAbove;
    Above63();
    Eight(156); Eighteen(299);
    AboveIs(64, 0xde469fbd99a05fe3, 481, Pow(5, 164), Pow(2, 317));
    Eight(164); Eighteen(317);
    AboveIs(65, 0xa59bc234db398c25, 508, Pow(5, 172), Pow(2, 336));
    Eight(172); Eighteen(336);
    AboveIs(66, 0xf6c69a72a3989f5c, 534, Pow(5, 180), Pow(2, 354));
    Eight(180); Eighteen(354);
    AboveIs(67, 0xb7dcbf5354e9bece, 561, Pow(5, 188), Pow(2, 373));
  }

  lemma Above71()
    ensures Pow(5, 220) == 0x71505aee4b8f981d172257324207eb0ef0144b2e1fac055e7cfc8e8a0ba063ec908059e41a047cf2c44e8767587f4c16a1c8387566126cba60c58d209ab55311
    ensures Pow(2, 447) == 0x8000000000000000000000000000000000000000000000000000000000000000000000000000000000000000000000000000000000000000
    ensures NearAbove(68) && NearAbove(69) && NearAbove(70) && NearAbove(71)
  {
    hide Pow, NearBelow, NearAbove;
    Above67();
    Eight(188); Eighteen(373);
    AboveIs(68, 0x88fcf317f22241e2, 588, Pow(5, 196), Pow(2, 392));
    Eight(196); Eighteen(392);
    AboveIs(69, 0xcc20ce9bd35c78a5, 614, Pow(5, 204), Pow(2, 410));
    Eight(204); Eighteen(410);
    AboveIs(70, 0x98165af37b2153df, 641, Pow(5, 212), Pow(2, 429));
    Eight(212); Eighteen(429);
    AboveIs(71, 0xe2a0b5dc971f303a, 667, Pow(5, 220), Pow(2, 447));
  }

  lemma Above75()
    ensures Pow(5, 252) == 0x22eae3bbed90270686b4226db0bdd5238971ee216e919b8ddc75f98c79c1493901b965ea6cb3864ab6089b001002d65d20f971080ca85b3c2b071e5d1ca8f4c1fcb585e8be3e257ba91
    ensures Pow(2, 522) == 0x40000000000000000000000000000000000000000000000000000000000000000000000000000000000000000000000000000000000000000000000000000000000
    ensures NearAbove(72) && NearAbove(73) && NearAbove(74) && NearAbove(75)
  {
    hide Pow, NearBelow, NearAbove;
    Above71();
    Eight(220); Eighteen(447);
    AboveIs(72, 0xa8d9d1535ce3b396, 694, Pow(5, 228), Pow(2, 466));
    Eight(228); Eighteen(466);
    AboveIs(73, 0xfb9b7cd9a4a7443c, 720, Pow(5, 236), Pow(2, 484));
    Eight(236); Eighteen(484);
    AboveIs(74, 0xbb764c4ca7a44410, 747, Pow(5, 244), Pow(2, 503));
    Eight(244); Eighteen(503);
    AboveIs(75, 0x8bab8eefb6409c1a, 774, Pow(5, 252), Pow(2, 522));
  }

  lemma Above79()
    ensures Pow(5, 284) == 0xac2820d9623bf429546345fa9fbdcd444ec0f65f43135bc21e3b9f42b859cc6542eee45b8ec4a834201fb157fe3fd95ef98af5567d1f39ad6f667d6814cb9dabae477528a717b1efe7398d63d078ea3ce6211
    ensures Pow(2, 596) == 0x100000000000000000000000000000000000000000000000000000000000000000000000000000000000000000000000000000000000000000000000000000000000000000000000000000
    ensures NearAbove(76) && NearAbove(77) && NearAbove(78) && NearAbove(79)
  {
    hide Pow, NearBelow, NearAbove;
    Above75();
    Eight(252); Eighteen(522);
    AboveIs(76, 0xd01fef10a657842c, 800, Pow(5, 260), Pow(2, 540));
    Eight(260); Eighteen(540);
    AboveIs(77, 0x9b10a4e5e9913129, 827, Pow(5, 268), Pow(2, 559));
    Eight(268); Eighteen(559);
    AboveIs(78, 0xe7109bfba19c0c9d, 853, Pow(5, 276), Pow(2, 577));
    Eight(276); Eighteen(577);
    AboveIs(79, 0xac2820d9623bf429, 880, Pow(5, 284), Pow(2, 596));
  }

  lemma Above83()
    ensures Pow(5, 316) == 0x350cc5e767232e1057e981a4a918547aef20a7e79f264046fcbd829924596ac30b7aeb1a5733e5195b792f32a12720ce71ca5f6024f94015294dd98dd0be2fdfe6eb1de14488a5566fc949e4e3ec3f33b2acf32b7d3f6e75f0f94991
    ensures Pow(2, 670) == 0x400000000000000000000000000000000000000000000000000000000000000000000000000000000000000000000000000000000000000000000000000000000000000000000000000000000000000000000000
    ensures NearAbove(80) && NearAbove(81) && NearAbove(82) && NearAbove(83)
  {
    hide Pow, NearBelow, NearAbove;
    Above79();
    Eight(284); Eighteen(596);
    AboveIs(80, 0x80444b5e7aa7cf85, 907, Pow(5, 292), Pow(2, 615));
    Eight(292); Eighteen(615);
    AboveIs(81, 0xbf21e44003acdd2d, 933, Pow(5, 300), Pow(2, 633));
    Eight(300); Eighteen(633);
    AboveIs(82, 0x8e679c2f5e44ff8f, 960, Pow(5, 308), Pow(2, 652));
    Eight(308); Eighteen(652);
    AboveIs(83, 0xd433179d9c8cb841, 986, Pow(5, 316), Pow(2, 670));
  }

  lemma Above86()
    ensures Pow(5, 340) == 0x2be1c08ee6fc3b9abae3eb5f1fe1a02d117690787d2e638ddf846cc1afd42149785bb5cd93670fe91b43e13cd322e4c213276acfebabc9e33adc94c324ea8c213b8be9d447f3510722fcca25b82a4be23a377a5a6cff3493f0af416299ec67a36e8131
    ensures Pow(2, 726) == 0x40000000000000000000000000000000000000000000000000000000000000000000000000000000000000000000000000000000000000000000000000000000000000000000000000000000000000000000000000000000000000
    ensures NearAbove(84) && NearAbove(85) && NearAbove(86)
  {
    hide Pow, NearBelow, NearAbove;
    Above83();
    Eight(316); Eighteen(670);
    AboveIs(84, 0x9e19db92b4e31ba9, 1013, Pow(5, 324), Pow(2, 689));
    Eight(324); Eighteen(689);
    AboveIs(85, 0xeb96bf6ebadf77d9, 1039, Pow(5, 332), Pow(2, 707));
    Eight(332); Eighteen(707);
    AboveIs(86, 0xaf87023b9bf0ee6b, 1066, Pow(5, 340), Pow(2, 726));
  }

  lemma AllNear(i: nat)
    requires i < COUNT
    ensures if i < 44 then NearBelow(i) else NearAbove(i)
  {
    hide Pow, NearBelow, NearAbove;
    Below0(); Below4(); Below12(); Below20(); Below28(); Below36();
    Above55(); Above63(); Above71(); Above79(); Below32(); Below24(); Below16(); Below8();
    Above51(); Above59(); Above67(); Above75(); Above83(); Above86();
  }

  lemma AllNormal(i: nat)
    requires i < COUNT
    ensures Normal(GetCachedPowerByIndex(i))
  {
  }

  // ---------------------------------------------------------------- the choice for a binary exponent

  /** The decimal exponent wanted, plus 347, before it is rounded up. */
  function Wanted(e: int): real {
    (-61 - e) as real * 0.30102999566398114 + 347.0
  }

  /** What the double arithmetic may lose in a product below 2^9 and a sum below 2^10. */
  const SLACK := 0.000000001

  predicate Computed(e: int, dk: real) {
    Wanted(e) - SLACK <= dk <= Wanted(e) + SLACK
  }

  /** The entry leaves 34 to 60 fractional bits, and at most nine integral digits. */
  predicate Suits(c: DiyFp, e: int) {
    && 34 <= 0 - (e + c.e + 64) <= 60
    && (e + c.e + 64 == -34 ==> c.f < 1000000000 * 0x4_0000_0000)
  }

  /** The exponents for which entry `i` may be chosen. */
  predicate Chosen(i: nat, e: int) {
    (8 * i - 9) as real - SLACK < Wanted(e) && Wanted(e) <= (8 * i - 1) as real + SLACK
  }

  /** The same in integers. */
  lemma ChosenIs(i: nat, e: int)
    requires Chosen(i, e)
    ensures (8 * i - 356) * 100000000000000000 - 100000000 < (-61 - e) * 30102999566398114 <= (8 * i - 348) * 100000000000000000 + 100000000
  {
    var w := (-61 - e) * 30102999566398114;
    assert w as real == (-61 - e) as real * 30102999566398114.0;
  }

  lemma Suits0(j: nat, e: int)
    requires j < 8 && Chosen(j, e) && -1137 <= e <= 960
    ensures Suits(Row0(j), e)
  {
    hide Chosen;
    ChosenIs(j, e);
  }

  lemma Suits1(j: nat, e: int)
    requires j < 8 && Chosen(8 + j, e)
    ensures Suits(Row1(j), e)
  {
    hide Chosen;
    ChosenIs(8 + j, e);
  }

  lemma Suits2(j: nat, e: int)
    requires j < 8 && Chosen(16 + j, e)
    ensures Suits(Row2(j), e)
  {
    hide Chosen;
    ChosenIs(16 + j, e);
  }

  lemma Suits3(j: nat, e: int)
    requires j < 8 && Chosen(24 + j, e)
    ensures Suits(Row3(j), e)
  {
    hide Chosen;
    ChosenIs(24 + j, e);
  }

  lemma Suits4(j: nat, e: int)
    requires j < 8 && Chosen(32 + j, e)
    ensures Suits(Row4(j), e)
  {
    hide Chosen;
    ChosenIs(32 + j, e);
  }

  lemma Suits5(j: nat, e: int)
    requires j < 8 && Chosen(40 + j, e)
    ensures Suits(Row5(j), e)
  {
    hide Chosen;
    ChosenIs(40 + j, e);
  }

  lemma Suits6(j: nat, e: int)
    requires j < 8 && Chosen(48 + j, e)
    ensures Suits(Row6(j), e)
  {
    hide Chosen;
    ChosenIs(48 + j, e);
  }

  lemma Suits7(j: nat, e: int)
    requires j < 8 && Chosen(56 + j, e)
    ensures Suits(Row7(j), e)
  {
    hide Chosen;
    ChosenIs(56 + j, e);
  }

  lemma Suits8(j: nat, e: int)
    requires j < 8 && Chosen(64 + j, e)
    ensures Suits(Row8(j), e)
  {
    hide Chosen;
    ChosenIs(64 + j, e);
  }

  lemma Suits9(j: nat, e: int)
    requires j < 8 && Chosen(72 + j, e)
    ensures Suits(Row9(j), e)
  {
    hide Chosen;
    ChosenIs(72 + j, e);
  }

  lemma Suits10(j: nat, e: int)
    requires j < 7 && Chosen(80 + j, e) && -1137 <= e <= 960
    ensures Suits(Row10(j), e)
  {
    hide Chosen;
    ChosenIs(80 + j, e);
  }

  lemma ChosenSuits(i: nat, e: int)
    requires i < COUNT && Chosen(i, e) && -1137 <= e <= 960
    ensures Suits(GetCachedPowerByIndex(i), e)
  {
    hide Chosen, Suits, Row0, Row1, Row2, Row3, Row4, Row5, Row6, Row7, Row8, Row9, Row10;
    var row, j := i / 8, i % 8;
    if row == 0 { Suits0(j, e); }
    else if row == 1 { Suits1(j, e); }
    else if row == 2 { Suits2(j, e); }
    else if row == 3 { Suits3(j, e); }
    else if row == 4 { Suits4(j, e); }
    else if row == 5 { Suits5(j, e); }
    else if row == 6 { Suits6(j, e); }
    else if row == 7 { Suits7(j, e); }
    else if row == 8 { Suits8(j, e); }
    else if row == 9 { Suits9(j, e); }
    else { Suits10(j, e); }
  }

  /** The cast truncates, so a fraction left over rounds up. */
  lemma RoundsUp(e: int, dk: real, k: int)
    requires -1137 <= e <= 960 && Computed(e, dk) && k as real - 1.0 < dk <= k as real
    ensures 0 < k && k / 8 + 1 < COUNT && Chosen(k / 8 + 1, e)
  {
    var i := k / 8 + 1;
    assert 8 * i - 8 <= k <= 8 * i - 1;
    assert 39 < k < 680;
    assert (8 * i - 8) as real <= k as real <= (8 * i - 1) as real;
    assert (8 * i - 9) as real == (8 * i - 8) as real - 1.0;
  }

  /** The entry for the binary exponent `e`, where `dk` is what the machine computes for the
      decimal exponent wanted, and `K` the negated decimal exponent of the entry. */
  method GetCachedPower(e: int, dk: real) returns (c: DiyFp, K: int, ghost index: nat)
    requires -1137 <= e <= 960 && Computed(e, dk)
    ensures index < COUNT && c == GetCachedPowerByIndex(index) && K == 0 - TenAt(index)
    ensures Suits(c, e)
  {
    hide Suits, Chosen, Computed, GetCachedPowerByIndex;
    var k := dk.Floor;
    if dk - k as real > 0.0 { k := k + 1; }
    RoundsUp(e, dk, k);
    var i := k / 8 + 1;
    ChosenSuits(i, e);
    index := i;
    K := 0 - (-348 + 8 * i);
    c := GetCachedPowerByIndex(i);
  }
}
