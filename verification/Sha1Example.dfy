/**
 A published value: the SHA-1 of the message "abc", computed step by step from the definition in
 `Sha1Spec`, whose digest the FIPS 180 examples give as A9993E36 4706816A BA3E2571 7850C26C 9CD0D89D.
 */
module Sha1Example {
  import opened Sha1Spec
  import Sha1

  const ABC: seq<bv8> := [0x61, 0x62, 0x63]

  /** The padded message, one block. */
  const BLOCK: seq<bv8> := [0x61, 0x62, 0x63, 0x80] + Zeros(59) + [24]

  lemma BlockBytes(i: nat)
    requires i < 64
    ensures |BLOCK| == 64
    ensures BLOCK[i] == if i == 0 then 0x61 else if i == 1 then 0x62 else if i == 2 then 0x63
                        else if i == 3 then 0x80 else if i == 63 then 24 else 0
  {
  }

  lemma FirstWord(t: nat)
    requires t < 16
    ensures |BLOCK| == 64
    ensures W(BLOCK, t) == if t == 0 then 0x61626380 else if t == 15 then 24 else 0
  {
    BlockBytes(4 * t);
    BlockBytes(4 * t + 1);
    BlockBytes(4 * t + 2);
    BlockBytes(4 * t + 3);
  }

  lemma Words16()
    ensures |BLOCK| == 64
    ensures W(BLOCK, 16) == 0xC2C4C700 && W(BLOCK, 17) == 0x00000000
    ensures W(BLOCK, 18) == 0x00000030 && W(BLOCK, 19) == 0x85898E01
    ensures W(BLOCK, 20) == 0x00000000 && W(BLOCK, 21) == 0x00000060
    ensures W(BLOCK, 22) == 0x0B131C03 && W(BLOCK, 23) == 0x00000030
    ensures W(BLOCK, 24) == 0x85898EC1 && W(BLOCK, 25) == 0x16263806
    ensures W(BLOCK, 26) == 0x00000000 && W(BLOCK, 27) == 0x00000180
    ensures W(BLOCK, 28) == 0x2C4C700C && W(BLOCK, 29) == 0x000000F0
    ensures W(BLOCK, 30) == 0x93AFB507 && W(BLOCK, 31) == 0x5898E048
  {
    forall t: nat | t < 16 ensures W(BLOCK, t) == if t == 0 then 0x61626380 else if t == 15 then 24 else 0 {
      FirstWord(t);
    }
  }

  lemma Words32()
    ensures |BLOCK| == 64
    ensures W(BLOCK, 32) == 0x8E9A9202 && W(BLOCK, 33) == 0x00000600
    ensures W(BLOCK, 34) == 0xB131C0F0 && W(BLOCK, 35) == 0x16263BC6
    ensures W(BLOCK, 36) == 0x4EBED41E && W(BLOCK, 37) == 0x626380A1
    ensures W(BLOCK, 38) == 0x16263806 && W(BLOCK, 39) == 0x000018C0
    ensures W(BLOCK, 40) == 0xD2E138C4 && W(BLOCK, 41) == 0x00000F00
    ensures W(BLOCK, 42) == 0x3AFB5079 && W(BLOCK, 43) == 0x898E04E5
    ensures W(BLOCK, 44) == 0xE2BA3C2B && W(BLOCK, 45) == 0x000060C0
    ensures W(BLOCK, 46) == 0x053A37CD && W(BLOCK, 47) == 0x74458547
  {
    Words16();
  }

  lemma Words48()
    ensures |BLOCK| == 64
    ensures W(BLOCK, 48) == 0xDA9415ED && W(BLOCK, 49) == 0x26380A16
    ensures W(BLOCK, 50) == 0x626383A1 && W(BLOCK, 51) == 0x4EBF54DE
    ensures W(BLOCK, 52) == 0x3835B44B && W(BLOCK, 53) == 0x0000F600
    ensures W(BLOCK, 54) == 0x1E84C7A3 && W(BLOCK, 55) == 0x98E04D98
    ensures W(BLOCK, 56) == 0x651D16A0 && W(BLOCK, 57) == 0x62658CA1
    ensures W(BLOCK, 58) == 0x458544D6 && W(BLOCK, 59) == 0x44584CB7
    ensures W(BLOCK, 60) == 0x7BA06619 && W(BLOCK, 61) == 0x6380AEA2
    ensures W(BLOCK, 62) == 0x0AE55269 && W(BLOCK, 63) == 0x627B49A1
  {
    Words32();
  }

  lemma Words64()
    ensures |BLOCK| == 64
    ensures W(BLOCK, 64) == 0x7CD45C9D && W(BLOCK, 65) == 0x000F0000
    ensures W(BLOCK, 66) == 0xFB50753A && W(BLOCK, 67) == 0xEC6765E8
    ensures W(BLOCK, 68) == 0xBA3C2BE2 && W(BLOCK, 69) == 0x0060C000
    ensures W(BLOCK, 70) == 0x3A37CD05 && W(BLOCK, 71) == 0x458546F4
    ensures W(BLOCK, 72) == 0xB8599DD6 && W(BLOCK, 73) == 0x380A1A26
    ensures W(BLOCK, 74) == 0x01E02203 && W(BLOCK, 75) == 0xE7CC3456
    ensures W(BLOCK, 76) == 0xE6E60B69 && W(BLOCK, 77) == 0x00F60A00
    ensures W(BLOCK, 78) == 0x5795EF4F && W(BLOCK, 79) == 0x822E0879
  {
    Words48();
  }

  /** The working variables after t rounds. */
  ghost function After(t: nat): Words
    requires t <= 80
  {
    BlockBytes(0);
    Rounds(INITIAL, Schedule(BLOCK)[..t])
  }

  lemma NextRound(t: nat)
    requires t < 80
    ensures |BLOCK| == 64 && After(t + 1) == Round(After(t), W(BLOCK, t), t)
  {
    BlockBytes(0);
    Sha1.RoundsNext(INITIAL, Schedule(BLOCK), t);
  }

  lemma Rounds5()
    ensures After(5) == Words(0xCFD499DE, 0xCDD8E11B, 0x284E43C2, 0x626414DB, 0xC045BF0C)
  {
    assert Schedule(BLOCK)[..0] == [];
    FirstWord(0);
    FirstWord(1);
    FirstWord(2);
    FirstWord(3);
    FirstWord(4);
    NextRound(0);
    assert After(1) == Words(0x0116FC33, 0x67452301, 0x7BF36AE2, 0x98BADCFE, 0x10325476);
    NextRound(1);
    assert After(2) == Words(0x8990536D, 0x0116FC33, 0x59D148C0, 0x7BF36AE2, 0x98BADCFE);
    NextRound(2);
    assert After(3) == Words(0xA1390F08, 0x8990536D, 0xC045BF0C, 0x59D148C0, 0x7BF36AE2);
    NextRound(3);
    assert After(4) == Words(0xCDD8E11B, 0xA1390F08, 0x626414DB, 0xC045BF0C, 0x59D148C0);
    NextRound(4);
    assert After(5) == Words(0xCFD499DE, 0xCDD8E11B, 0x284E43C2, 0x626414DB, 0xC045BF0C);
  }

  lemma Rounds10()
    ensures After(10) == Words(0x8351F929, 0x4B6AE328, 0x27A301F5, 0x664F8C30, 0x0FF1F290)
  {
    Rounds5();
    FirstWord(5);
    FirstWord(6);
    FirstWord(7);
    FirstWord(8);
    FirstWord(9);
    NextRound(5);
    assert After(6) == Words(0x3FC7CA40, 0xCFD499DE, 0xF3763846, 0x284E43C2, 0x626414DB);
    NextRound(6);
    assert After(7) == Words(0x993E30C1, 0x3FC7CA40, 0xB3F52677, 0xF3763846, 0x284E43C2);
    NextRound(7);
    assert After(8) == Words(0x9E8C07D4, 0x993E30C1, 0x0FF1F290, 0xB3F52677, 0xF3763846);
    NextRound(8);
    assert After(9) == Words(0x4B6AE328, 0x9E8C07D4, 0x664F8C30, 0x0FF1F290, 0xB3F52677);
    NextRound(9);
    assert After(10) == Words(0x8351F929, 0x4B6AE328, 0x27A301F5, 0x664F8C30, 0x0FF1F290);
  }

  lemma Rounds15()
    ensures After(15) == Words(0x196BEE77, 0x9128F695, 0x1181ED99, 0x18C623F9, 0x7EF6A7A2)
  {
    Rounds10();
    FirstWord(10);
    FirstWord(11);
    FirstWord(12);
    FirstWord(13);
    FirstWord(14);
    NextRound(10);
    assert After(11) == Words(0xFBDA9E89, 0x8351F929, 0x12DAB8CA, 0x27A301F5, 0x664F8C30);
    NextRound(11);
    assert After(12) == Words(0x63188FE4, 0xFBDA9E89, 0x60D47E4A, 0x12DAB8CA, 0x27A301F5);
    NextRound(12);
    assert After(13) == Words(0x4607B664, 0x63188FE4, 0x7EF6A7A2, 0x60D47E4A, 0x12DAB8CA);
    NextRound(13);
    assert After(14) == Words(0x9128F695, 0x4607B664, 0x18C623F9, 0x7EF6A7A2, 0x60D47E4A);
    NextRound(14);
    assert After(15) == Words(0x196BEE77, 0x9128F695, 0x1181ED99, 0x18C623F9, 0x7EF6A7A2);
  }

  lemma Rounds20()
    ensures After(20) == Words(0xFD9E1D7D, 0xDC64901D, 0x20AA99CA, 0xD3A49608, 0xC82F758B)
  {
    Rounds15();
    FirstWord(15);
    Words16();
    NextRound(15);
    assert After(16) == Words(0x20BDD62F, 0x196BEE77, 0x644A3DA5, 0x1181ED99, 0x18C623F9);
    NextRound(16);
    assert After(17) == Words(0x4E925823, 0x20BDD62F, 0xC65AFB9D, 0x644A3DA5, 0x1181ED99);
    NextRound(17);
    assert After(18) == Words(0x82AA6728, 0x4E925823, 0xC82F758B, 0xC65AFB9D, 0x644A3DA5);
    NextRound(18);
    assert After(19) == Words(0xDC64901D, 0x82AA6728, 0xD3A49608, 0xC82F758B, 0xC65AFB9D);
    NextRound(19);
    assert After(20) == Words(0xFD9E1D7D, 0xDC64901D, 0x20AA99CA, 0xD3A49608, 0xC82F758B);
  }

  lemma Rounds25()
    ensures After(25) == Words(0xC7567DC6, 0xD541F12D, 0x884A0D21, 0x0CE88EFF, 0x868DEC32)
  {
    Rounds20();
    Words16();
    NextRound(20);
    assert After(21) == Words(0x1A37B0CA, 0xFD9E1D7D, 0x77192407, 0x20AA99CA, 0xD3A49608);
    NextRound(21);
    assert After(22) == Words(0x33A23BFC, 0x1A37B0CA, 0x7F67875F, 0x77192407, 0x20AA99CA);
    NextRound(22);
    assert After(23) == Words(0x21283486, 0x33A23BFC, 0x868DEC32, 0x7F67875F, 0x77192407);
    NextRound(23);
    assert After(24) == Words(0xD541F12D, 0x21283486, 0x0CE88EFF, 0x868DEC32, 0x7F67875F);
    NextRound(24);
    assert After(25) == Words(0xC7567DC6, 0xD541F12D, 0x884A0D21, 0x0CE88EFF, 0x868DEC32);
  }

  lemma Rounds30()
    ensures After(30) == Words(0xC5FBAF5D, 0x8370B52E, 0xD2AA1365, 0x6F8D7EF5, 0x12104EE9)
  {
    Rounds25();
    Words16();
    NextRound(25);
    assert After(26) == Words(0x48413BA4, 0xC7567DC6, 0x75507C4B, 0x884A0D21, 0x0CE88EFF);
    NextRound(26);
    assert After(27) == Words(0xBE35FBD5, 0x48413BA4, 0xB1D59F71, 0x75507C4B, 0x884A0D21);
    NextRound(27);
    assert After(28) == Words(0x4AA84D97, 0xBE35FBD5, 0x12104EE9, 0xB1D59F71, 0x75507C4B);
    NextRound(28);
    assert After(29) == Words(0x8370B52E, 0x4AA84D97, 0x6F8D7EF5, 0x12104EE9, 0xB1D59F71);
    NextRound(29);
    assert After(30) == Words(0xC5FBAF5D, 0x8370B52E, 0xD2AA1365, 0x6F8D7EF5, 0x12104EE9);
  }

  lemma Rounds35()
    ensures After(35) == Words(0x21796AD4, 0x2C0EBC11, 0x811BEA82, 0xCEE1174C, 0xC499ED01)
  {
    Rounds30();
    Words16();
    Words32();
    NextRound(30);
    assert After(31) == Words(0x1267B407, 0xC5FBAF5D, 0xA0DC2D4B, 0xD2AA1365, 0x6F8D7EF5);
    NextRound(31);
    assert After(32) == Words(0x3B845D33, 0x1267B407, 0x717EEBD7, 0xA0DC2D4B, 0xD2AA1365);
    NextRound(32);
    assert After(33) == Words(0x046FAA0A, 0x3B845D33, 0xC499ED01, 0x717EEBD7, 0xA0DC2D4B);
    NextRound(33);
    assert After(34) == Words(0x2C0EBC11, 0x046FAA0A, 0xCEE1174C, 0xC499ED01, 0x717EEBD7);
    NextRound(34);
    assert After(35) == Words(0x21796AD4, 0x2C0EBC11, 0x811BEA82, 0xCEE1174C, 0xC499ED01);
  }

  lemma Rounds40()
    ensures After(40) == Words(0x32DE1CBA, 0x4C986405, 0xF718E5CF, 0x03D447F6, 0xF72EEC32)
  {
    Rounds35();
    Words32();
    NextRound(35);
    assert After(36) == Words(0xDCBBB0CB, 0x21796AD4, 0x4B03AF04, 0x811BEA82, 0xCEE1174C);
    NextRound(36);
    assert After(37) == Words(0x0F511FD8, 0xDCBBB0CB, 0x085E5AB5, 0x4B03AF04, 0x811BEA82);
    NextRound(37);
    assert After(38) == Words(0xDC63973F, 0x0F511FD8, 0xF72EEC32, 0x085E5AB5, 0x4B03AF04);
    NextRound(38);
    assert After(39) == Words(0x4C986405, 0xDC63973F, 0x03D447F6, 0xF72EEC32, 0x085E5AB5);
    NextRound(39);
    assert After(40) == Words(0x32DE1CBA, 0x4C986405, 0xF718E5CF, 0x03D447F6, 0xF72EEC32);
  }

  lemma Rounds45()
    ensures After(45) == Words(0x40F28E09, 0xEE1B1AAF, 0x5FC64F71, 0x25C28357, 0xFF21F7B7)
  {
    Rounds40();
    Words32();
    NextRound(40);
    assert After(41) == Words(0xFC87DEDF, 0x32DE1CBA, 0x53261901, 0xF718E5CF, 0x03D447F6);
    NextRound(41);
    assert After(42) == Words(0x970A0D5C, 0xFC87DEDF, 0x8CB7872E, 0x53261901, 0xF718E5CF);
    NextRound(42);
    assert After(43) == Words(0x7F193DC5, 0x970A0D5C, 0xFF21F7B7, 0x8CB7872E, 0x53261901);
    NextRound(43);
    assert After(44) == Words(0xEE1B1AAF, 0x7F193DC5, 0x25C28357, 0xFF21F7B7, 0x8CB7872E);
    NextRound(44);
    assert After(45) == Words(0x40F28E09, 0xEE1B1AAF, 0x5FC64F71, 0x25C28357, 0xFF21F7B7);
  }

  lemma Rounds50()
    ensures After(50) == Words(0x120731C5, 0xBAF39337, 0xAFAB40B2, 0x2806E11B, 0x8714787C)
  {
    Rounds45();
    Words32();
    Words48();
    NextRound(45);
    assert After(46) == Words(0x1C51E1F2, 0x40F28E09, 0xFB86C6AB, 0x5FC64F71, 0x25C28357);
    NextRound(46);
    assert After(47) == Words(0xA01B846C, 0x1C51E1F2, 0x503CA382, 0xFB86C6AB, 0x5FC64F71);
    NextRound(47);
    assert After(48) == Words(0xBEAD02CA, 0xA01B846C, 0x8714787C, 0x503CA382, 0xFB86C6AB);
    NextRound(48);
    assert After(49) == Words(0xBAF39337, 0xBEAD02CA, 0x2806E11B, 0x8714787C, 0x503CA382);
    NextRound(49);
    assert After(50) == Words(0x120731C5, 0xBAF39337, 0xAFAB40B2, 0x2806E11B, 0x8714787C);
  }

  lemma Rounds55()
    ensures After(55) == Words(0x7B71F76D, 0x27E9F1D8, 0x792410DB, 0x8E11EB59, 0x99076CB3)
  {
    Rounds50();
    Words48();
    NextRound(50);
    assert After(51) == Words(0x641DB2CE, 0x120731C5, 0xEEBCE4CD, 0xAFAB40B2, 0x2806E11B);
    NextRound(51);
    assert After(52) == Words(0x3847AD66, 0x641DB2CE, 0x4481CC71, 0xEEBCE4CD, 0xAFAB40B2);
    NextRound(52);
    assert After(53) == Words(0xE490436D, 0x3847AD66, 0x99076CB3, 0x4481CC71, 0xEEBCE4CD);
    NextRound(53);
    assert After(54) == Words(0x27E9F1D8, 0xE490436D, 0x8E11EB59, 0x99076CB3, 0x4481CC71);
    NextRound(54);
    assert After(55) == Words(0x7B71F76D, 0x27E9F1D8, 0x792410DB, 0x8E11EB59, 0x99076CB3);
  }

  lemma Rounds60()
    ensures After(60) == Words(0x3F52DE5A, 0x09D785FD, 0x3498BFD4, 0xF211824F, 0xD79915AB)
  {
    Rounds55();
    Words48();
    NextRound(55);
    assert After(56) == Words(0x5E6456AF, 0x7B71F76D, 0x09FA7C76, 0x792410DB, 0x8E11EB59);
    NextRound(56);
    assert After(57) == Words(0xC846093F, 0x5E6456AF, 0x5EDC7DDB, 0x09FA7C76, 0x792410DB);
    NextRound(57);
    assert After(58) == Words(0xD262FF50, 0xC846093F, 0xD79915AB, 0x5EDC7DDB, 0x09FA7C76);
    NextRound(58);
    assert After(59) == Words(0x09D785FD, 0xD262FF50, 0xF211824F, 0xD79915AB, 0x5EDC7DDB);
    NextRound(59);
    assert After(60) == Words(0x3F52DE5A, 0x09D785FD, 0x3498BFD4, 0xF211824F, 0xD79915AB);
  }

  lemma Rounds65()
    ensures After(65) == Words(0x19DFA7AC, 0x6B61C9E1, 0xED9B0082, 0x9523272C, 0xF5D5B051)
  {
    Rounds60();
    Words48();
    Words64();
    NextRound(60);
    assert After(61) == Words(0xD756C147, 0x3F52DE5A, 0x4275E17F, 0x3498BFD4, 0xF211824F);
    NextRound(61);
    assert After(62) == Words(0x548C9CB2, 0xD756C147, 0x8FD4B796, 0x4275E17F, 0x3498BFD4);
    NextRound(62);
    assert After(63) == Words(0xB66C020B, 0x548C9CB2, 0xF5D5B051, 0x8FD4B796, 0x4275E17F);
    NextRound(63);
    assert After(64) == Words(0x6B61C9E1, 0xB66C020B, 0x9523272C, 0xF5D5B051, 0x8FD4B796);
    NextRound(64);
    assert After(65) == Words(0x19DFA7AC, 0x6B61C9E1, 0xED9B0082, 0x9523272C, 0xF5D5B051);
  }

  lemma Rounds70()
    ensures After(70) == Words(0x3F2588C2, 0x497093C0, 0xDE37534A, 0x030F7CAD, 0x4405957E)
  {
    Rounds65();
    Words64();
    NextRound(65);
    assert After(66) == Words(0x101655F9, 0x19DFA7AC, 0x5AD87278, 0xED9B0082, 0x9523272C);
    NextRound(66);
    assert After(67) == Words(0x0C3DF2B4, 0x101655F9, 0x0677E9EB, 0x5AD87278, 0xED9B0082);
    NextRound(67);
    assert After(68) == Words(0x78DD4D2B, 0x0C3DF2B4, 0x4405957E, 0x0677E9EB, 0x5AD87278);
    NextRound(68);
    assert After(69) == Words(0x497093C0, 0x78DD4D2B, 0x030F7CAD, 0x4405957E, 0x0677E9EB);
    NextRound(69);
    assert After(70) == Words(0x3F2588C2, 0x497093C0, 0xDE37534A, 0x030F7CAD, 0x4405957E);
  }

  lemma Rounds75()
    ensures After(75) == Words(0x5EE76897, 0x11793F6F, 0x3B6D0B79, 0xCE616779, 0xF0667E31)
  {
    Rounds70();
    Words64();
    NextRound(70);
    assert After(71) == Words(0xC199F8C7, 0x3F2588C2, 0x125C24F0, 0xDE37534A, 0x030F7CAD);
    NextRound(71);
    assert After(72) == Words(0x39859DE7, 0xC199F8C7, 0x8FC96230, 0x125C24F0, 0xDE37534A);
    NextRound(72);
    assert After(73) == Words(0xEDB42DE4, 0x39859DE7, 0xF0667E31, 0x8FC96230, 0x125C24F0);
    NextRound(73);
    assert After(74) == Words(0x11793F6F, 0xEDB42DE4, 0xCE616779, 0xF0667E31, 0x8FC96230);
    NextRound(74);
    assert After(75) == Words(0x5EE76897, 0x11793F6F, 0x3B6D0B79, 0xCE616779, 0xF0667E31);
  }

  lemma Rounds80()
    ensures After(80) == Words(0x42541B35, 0x5738D5E1, 0x21834873, 0x681E6DF6, 0xD8FDF6AD)
  {
    Rounds75();
    Words64();
    NextRound(75);
    assert After(76) == Words(0x63F7DAB7, 0x5EE76897, 0xC45E4FDB, 0x3B6D0B79, 0xCE616779);
    NextRound(76);
    assert After(77) == Words(0xA079B7D9, 0x63F7DAB7, 0xD7B9DA25, 0xC45E4FDB, 0x3B6D0B79);
    NextRound(77);
    assert After(78) == Words(0x860D21CC, 0xA079B7D9, 0xD8FDF6AD, 0xD7B9DA25, 0xC45E4FDB);
    NextRound(78);
    assert After(79) == Words(0x5738D5E1, 0x860D21CC, 0x681E6DF6, 0xD8FDF6AD, 0xD7B9DA25);
    NextRound(79);
    assert After(80) == Words(0x42541B35, 0x5738D5E1, 0x21834873, 0x681E6DF6, 0xD8FDF6AD);
  }

  /** The digest of "abc" is the published one. */
  lemma AbcDigest()
    ensures Sha1Spec.Sha1(ABC) == Words(0xA9993E36, 0x4706816A, 0xBA3E2571, 0x7850C26C, 0x9CD0D89D)
  {
    Rounds80();
    BlockBytes(0);
    assert Pad(ABC) == BLOCK;
    HashOneBlock(INITIAL, BLOCK);
    assert Schedule(BLOCK)[..80] == Schedule(BLOCK);
  }
}
