/**
 The constant tables of crc32 and crc16 in libdtubase/dtucommon.cpp, sixteen entries a row.
 */
module CrcTables {

  type byte = bv8

  function Row32x0(k: byte): bv32 {
    match k
    case 0 => 0x00000000 case 1 => 0x04C11DB7 case 2 => 0x09823B6E case 3 => 0x0D4326D9
    case 4 => 0x130476DC case 5 => 0x17C56B6B case 6 => 0x1A864DB2 case 7 => 0x1E475005
    case 8 => 0x2608EDB8 case 9 => 0x22C9F00F case 10 => 0x2F8AD6D6 case 11 => 0x2B4BCB61
    case 12 => 0x350C9B64 case 13 => 0x31CD86D3 case 14 => 0x3C8EA00A case _ => 0x384FBDBD
  }

  function Row32x1(k: byte): bv32 {
    match k
    case 0 => 0x4C11DB70 case 1 => 0x48D0C6C7 case 2 => 0x4593E01E case 3 => 0x4152FDA9
    case 4 => 0x5F15ADAC case 5 => 0x5BD4B01B case 6 => 0x569796C2 case 7 => 0x52568B75
    case 8 => 0x6A1936C8 case 9 => 0x6ED82B7F case 10 => 0x639B0DA6 case 11 => 0x675A1011
    case 12 => 0x791D4014 case 13 => 0x7DDC5DA3 case 14 => 0x709F7B7A case _ => 0x745E66CD
  }

  function Row32x2(k: byte): bv32 {
    match k
    case 0 => 0x9823B6E0 case 1 => 0x9CE2AB57 case 2 => 0x91A18D8E case 3 => 0x95609039
    case 4 => 0x8B27C03C case 5 => 0x8FE6DD8B case 6 => 0x82A5FB52 case 7 => 0x8664E6E5
    case 8 => 0xBE2B5B58 case 9 => 0xBAEA46EF case 10 => 0xB7A96036 case 11 => 0xB3687D81
    case 12 => 0xAD2F2D84 case 13 => 0xA9EE3033 case 14 => 0xA4AD16EA case _ => 0xA06C0B5D
  }

  function Row32x3(k: byte): bv32 {
    match k
    case 0 => 0xD4326D90 case 1 => 0xD0F37027 case 2 => 0xDDB056FE case 3 => 0xD9714B49
    case 4 => 0xC7361B4C case 5 => 0xC3F706FB case 6 => 0xCEB42022 case 7 => 0xCA753D95
    case 8 => 0xF23A8028 case 9 => 0xF6FB9D9F case 10 => 0xFBB8BB46 case 11 => 0xFF79A6F1
    case 12 => 0xE13EF6F4 case 13 => 0xE5FFEB43 case 14 => 0xE8BCCD9A case _ => 0xEC7DD02D
  }

  function Row32x4(k: byte): bv32 {
    match k
    case 0 => 0x34867077 case 1 => 0x30476DC0 case 2 => 0x3D044B19 case 3 => 0x39C556AE
    case 4 => 0x278206AB case 5 => 0x23431B1C case 6 => 0x2E003DC5 case 7 => 0x2AC12072
    case 8 => 0x128E9DCF case 9 => 0x164F8078 case 10 => 0x1B0CA6A1 case 11 => 0x1FCDBB16
    case 12 => 0x018AEB13 case 13 => 0x054BF6A4 case 14 => 0x0808D07D case _ => 0x0CC9CDCA
  }

  function Row32x5(k: byte): bv32 {
    match k
    case 0 => 0x7897AB07 case 1 => 0x7C56B6B0 case 2 => 0x71159069 case 3 => 0x75D48DDE
    case 4 => 0x6B93DDDB case 5 => 0x6F52C06C case 6 => 0x6211E6B5 case 7 => 0x66D0FB02
    case 8 => 0x5E9F46BF case 9 => 0x5A5E5B08 case 10 => 0x571D7DD1 case 11 => 0x53DC6066
    case 12 => 0x4D9B3063 case 13 => 0x495A2DD4 case 14 => 0x44190B0D case _ => 0x40D816BA
  }

  function Row32x6(k: byte): bv32 {
    match k
    case 0 => 0xACA5C697 case 1 => 0xA864DB20 case 2 => 0xA527FDF9 case 3 => 0xA1E6E04E
    case 4 => 0xBFA1B04B case 5 => 0xBB60ADFC case 6 => 0xB6238B25 case 7 => 0xB2E29692
    case 8 => 0x8AAD2B2F case 9 => 0x8E6C3698 case 10 => 0x832F1041 case 11 => 0x87EE0DF6
    case 12 => 0x99A95DF3 case 13 => 0x9D684044 case 14 => 0x902B669D case _ => 0x94EA7B2A
  }

  function Row32x7(k: byte): bv32 {
    match k
    case 0 => 0xE0B41DE7 case 1 => 0xE4750050 case 2 => 0xE9362689 case 3 => 0xEDF73B3E
    case 4 => 0xF3B06B3B case 5 => 0xF771768C case 6 => 0xFA325055 case 7 => 0xFEF34DE2
    case 8 => 0xC6BCF05F case 9 => 0xC27DEDE8 case 10 => 0xCF3ECB31 case 11 => 0xCBFFD686
    case 12 => 0xD5B88683 case 13 => 0xD1799B34 case 14 => 0xDC3ABDED case _ => 0xD8FBA05A
  }

  function Row32x8(k: byte): bv32 {
    match k
    case 0 => 0x690CE0EE case 1 => 0x6DCDFD59 case 2 => 0x608EDB80 case 3 => 0x644FC637
    case 4 => 0x7A089632 case 5 => 0x7EC98B85 case 6 => 0x738AAD5C case 7 => 0x774BB0EB
    case 8 => 0x4F040D56 case 9 => 0x4BC510E1 case 10 => 0x46863638 case 11 => 0x42472B8F
    case 12 => 0x5C007B8A case 13 => 0x58C1663D case 14 => 0x558240E4 case _ => 0x51435D53
  }

  function Row32x9(k: byte): bv32 {
    match k
    case 0 => 0x251D3B9E case 1 => 0x21DC2629 case 2 => 0x2C9F00F0 case 3 => 0x285E1D47
    case 4 => 0x36194D42 case 5 => 0x32D850F5 case 6 => 0x3F9B762C case 7 => 0x3B5A6B9B
    case 8 => 0x0315D626 case 9 => 0x07D4CB91 case 10 => 0x0A97ED48 case 11 => 0x0E56F0FF
    case 12 => 0x1011A0FA case 13 => 0x14D0BD4D case 14 => 0x19939B94 case _ => 0x1D528623
  }

  function Row32xA(k: byte): bv32 {
    match k
    case 0 => 0xF12F560E case 1 => 0xF5EE4BB9 case 2 => 0xF8AD6D60 case 3 => 0xFC6C70D7
    case 4 => 0xE22B20D2 case 5 => 0xE6EA3D65 case 6 => 0xEBA91BBC case 7 => 0xEF68060B
    case 8 => 0xD727BBB6 case 9 => 0xD3E6A601 case 10 => 0xDEA580D8 case 11 => 0xDA649D6F
    case 12 => 0xC423CD6A case 13 => 0xC0E2D0DD case 14 => 0xCDA1F604 case _ => 0xC960EBB3
  }

  function Row32xB(k: byte): bv32 {
    match k
    case 0 => 0xBD3E8D7E case 1 => 0xB9FF90C9 case 2 => 0xB4BCB610 case 3 => 0xB07DABA7
    case 4 => 0xAE3AFBA2 case 5 => 0xAAFBE615 case 6 => 0xA7B8C0CC case 7 => 0xA379DD7B
    case 8 => 0x9B3660C6 case 9 => 0x9FF77D71 case 10 => 0x92B45BA8 case 11 => 0x9675461F
    case 12 => 0x8832161A case 13 => 0x8CF30BAD case 14 => 0x81B02D74 case _ => 0x857130C3
  }

  function Row32xC(k: byte): bv32 {
    match k
    case 0 => 0x5D8A9099 case 1 => 0x594B8D2E case 2 => 0x5408ABF7 case 3 => 0x50C9B640
    case 4 => 0x4E8EE645 case 5 => 0x4A4FFBF2 case 6 => 0x470CDD2B case 7 => 0x43CDC09C
    case 8 => 0x7B827D21 case 9 => 0x7F436096 case 10 => 0x7200464F case 11 => 0x76C15BF8
    case 12 => 0x68860BFD case 13 => 0x6C47164A case 14 => 0x61043093 case _ => 0x65C52D24
  }

  function Row32xD(k: byte): bv32 {
    match k
    case 0 => 0x119B4BE9 case 1 => 0x155A565E case 2 => 0x18197087 case 3 => 0x1CD86D30
    case 4 => 0x029F3D35 case 5 => 0x065E2082 case 6 => 0x0B1D065B case 7 => 0x0FDC1BEC
    case 8 => 0x3793A651 case 9 => 0x3352BBE6 case 10 => 0x3E119D3F case 11 => 0x3AD08088
    case 12 => 0x2497D08D case 13 => 0x2056CD3A case 14 => 0x2D15EBE3 case _ => 0x29D4F654
  }

  function Row32xE(k: byte): bv32 {
    match k
    case 0 => 0xC5A92679 case 1 => 0xC1683BCE case 2 => 0xCC2B1D17 case 3 => 0xC8EA00A0
    case 4 => 0xD6AD50A5 case 5 => 0xD26C4D12 case 6 => 0xDF2F6BCB case 7 => 0xDBEE767C
    case 8 => 0xE3A1CBC1 case 9 => 0xE760D676 case 10 => 0xEA23F0AF case 11 => 0xEEE2ED18
    case 12 => 0xF0A5BD1D case 13 => 0xF464A0AA case 14 => 0xF9278673 case _ => 0xFDE69BC4
  }

  function Row32xF(k: byte): bv32 {
    match k
    case 0 => 0x89B8FD09 case 1 => 0x8D79E0BE case 2 => 0x803AC667 case 3 => 0x84FBDBD0
    case 4 => 0x9ABC8BD5 case 5 => 0x9E7D9662 case 6 => 0x933EB0BB case 7 => 0x97FFAD0C
    case 8 => 0xAFB010B1 case 9 => 0xAB710D06 case 10 => 0xA6322BDF case 11 => 0xA2F33668
    case 12 => 0xBCB4666D case 13 => 0xB8757BDA case 14 => 0xB5365D03 case _ => 0xB1F740B4
  }

  /** crc32_tab */
  function Crc32Tab(b: byte): bv32 {
    var k := b & 0xF;
    match b >> 4
    case 0 => Row32x0(k) case 1 => Row32x1(k) case 2 => Row32x2(k) case 3 => Row32x3(k)
    case 4 => Row32x4(k) case 5 => Row32x5(k) case 6 => Row32x6(k) case 7 => Row32x7(k)
    case 8 => Row32x8(k) case 9 => Row32x9(k) case 10 => Row32xA(k) case 11 => Row32xB(k)
    case 12 => Row32xC(k) case 13 => Row32xD(k) case 14 => Row32xE(k) case _ => Row32xF(k)
  }

  function RowHi0(k: byte): byte {
    match k
    case 0 => 0x00 case 1 => 0xC1 case 2 => 0x81 case 3 => 0x40
    case 4 => 0x01 case 5 => 0xC0 case 6 => 0x80 case 7 => 0x41
    case 8 => 0x01 case 9 => 0xC0 case 10 => 0x80 case 11 => 0x41
    case 12 => 0x00 case 13 => 0xC1 case 14 => 0x81 case _ => 0x40
  }

  function RowHi1(k: byte): byte {
    match k
    case 0 => 0x01 case 1 => 0xC0 case 2 => 0x80 case 3 => 0x41
    case 4 => 0x00 case 5 => 0xC1 case 6 => 0x81 case 7 => 0x40
    case 8 => 0x00 case 9 => 0xC1 case 10 => 0x81 case 11 => 0x40
    case 12 => 0x01 case 13 => 0xC0 case 14 => 0x80 case _ => 0x41
  }

  function RowHi2(k: byte): byte {
    match k
    case 0 => 0x01 case 1 => 0xC0 case 2 => 0x80 case 3 => 0x41
    case 4 => 0x00 case 5 => 0xC1 case 6 => 0x81 case 7 => 0x40
    case 8 => 0x00 case 9 => 0xC1 case 10 => 0x81 case 11 => 0x40
    case 12 => 0x01 case 13 => 0xC0 case 14 => 0x80 case _ => 0x41
  }

  function RowHi3(k: byte): byte {
    match k
    case 0 => 0x00 case 1 => 0xC1 case 2 => 0x81 case 3 => 0x40
    case 4 => 0x01 case 5 => 0xC0 case 6 => 0x80 case 7 => 0x41
    case 8 => 0x01 case 9 => 0xC0 case 10 => 0x80 case 11 => 0x41
    case 12 => 0x00 case 13 => 0xC1 case 14 => 0x81 case _ => 0x40
  }

  function RowHi4(k: byte): byte {
    match k
    case 0 => 0x01 case 1 => 0xC0 case 2 => 0x80 case 3 => 0x41
    case 4 => 0x00 case 5 => 0xC1 case 6 => 0x81 case 7 => 0x40
    case 8 => 0x00 case 9 => 0xC1 case 10 => 0x81 case 11 => 0x40
    case 12 => 0x01 case 13 => 0xC0 case 14 => 0x80 case _ => 0x41
  }

  function RowHi5(k: byte): byte {
    match k
    case 0 => 0x00 case 1 => 0xC1 case 2 => 0x81 case 3 => 0x40
    case 4 => 0x01 case 5 => 0xC0 case 6 => 0x80 case 7 => 0x41
    case 8 => 0x01 case 9 => 0xC0 case 10 => 0x80 case 11 => 0x41
    case 12 => 0x00 case 13 => 0xC1 case 14 => 0x81 case _ => 0x40
  }

  function RowHi6(k: byte): byte {
    match k
    case 0 => 0x00 case 1 => 0xC1 case 2 => 0x81 case 3 => 0x40
    case 4 => 0x01 case 5 => 0xC0 case 6 => 0x80 case 7 => 0x41
    case 8 => 0x01 case 9 => 0xC0 case 10 => 0x80 case 11 => 0x41
    case 12 => 0x00 case 13 => 0xC1 case 14 => 0x81 case _ => 0x40
  }

  function RowHi7(k: byte): byte {
    match k
    case 0 => 0x01 case 1 => 0xC0 case 2 => 0x80 case 3 => 0x41
    case 4 => 0x00 case 5 => 0xC1 case 6 => 0x81 case 7 => 0x40
    case 8 => 0x00 case 9 => 0xC1 case 10 => 0x81 case 11 => 0x40
    case 12 => 0x01 case 13 => 0xC0 case 14 => 0x80 case _ => 0x41
  }

  function RowHi8(k: byte): byte {
    match k
    case 0 => 0x01 case 1 => 0xC0 case 2 => 0x80 case 3 => 0x41
    case 4 => 0x00 case 5 => 0xC1 case 6 => 0x81 case 7 => 0x40
    case 8 => 0x00 case 9 => 0xC1 case 10 => 0x81 case 11 => 0x40
    case 12 => 0x01 case 13 => 0xC0 case 14 => 0x80 case _ => 0x41
  }

  function RowHi9(k: byte): byte {
    match k
    case 0 => 0x00 case 1 => 0xC1 case 2 => 0x81 case 3 => 0x40
    case 4 => 0x01 case 5 => 0xC0 case 6 => 0x80 case 7 => 0x41
    case 8 => 0x01 case 9 => 0xC0 case 10 => 0x80 case 11 => 0x41
    case 12 => 0x00 case 13 => 0xC1 case 14 => 0x81 case _ => 0x40
  }

  function RowHiA(k: byte): byte {
    match k
    case 0 => 0x00 case 1 => 0xC1 case 2 => 0x81 case 3 => 0x40
    case 4 => 0x01 case 5 => 0xC0 case 6 => 0x80 case 7 => 0x41
    case 8 => 0x01 case 9 => 0xC0 case 10 => 0x80 case 11 => 0x41
    case 12 => 0x00 case 13 => 0xC1 case 14 => 0x81 case _ => 0x40
  }

  function RowHiB(k: byte): byte {
    match k
    case 0 => 0x01 case 1 => 0xC0 case 2 => 0x80 case 3 => 0x41
    case 4 => 0x00 case 5 => 0xC1 case 6 => 0x81 case 7 => 0x40
    case 8 => 0x00 case 9 => 0xC1 case 10 => 0x81 case 11 => 0x40
    case 12 => 0x01 case 13 => 0xC0 case 14 => 0x80 case _ => 0x41
  }

  function RowHiC(k: byte): byte {
    match k
    case 0 => 0x00 case 1 => 0xC1 case 2 => 0x81 case 3 => 0x40
    case 4 => 0x01 case 5 => 0xC0 case 6 => 0x80 case 7 => 0x41
    case 8 => 0x01 case 9 => 0xC0 case 10 => 0x80 case 11 => 0x41
    case 12 => 0x00 case 13 => 0xC1 case 14 => 0x81 case _ => 0x40
  }

  function RowHiD(k: byte): byte {
    match k
    case 0 => 0x01 case 1 => 0xC0 case 2 => 0x80 case 3 => 0x41
    case 4 => 0x00 case 5 => 0xC1 case 6 => 0x81 case 7 => 0x40
    case 8 => 0x00 case 9 => 0xC1 case 10 => 0x81 case 11 => 0x40
    case 12 => 0x01 case 13 => 0xC0 case 14 => 0x80 case _ => 0x41
  }

  function RowHiE(k: byte): byte {
    match k
    case 0 => 0x01 case 1 => 0xC0 case 2 => 0x80 case 3 => 0x41
    case 4 => 0x00 case 5 => 0xC1 case 6 => 0x81 case 7 => 0x40
    case 8 => 0x00 case 9 => 0xC1 case 10 => 0x81 case 11 => 0x40
    case 12 => 0x01 case 13 => 0xC0 case 14 => 0x80 case _ => 0x41
  }

  function RowHiF(k: byte): byte {
    match k
    case 0 => 0x00 case 1 => 0xC1 case 2 => 0x81 case 3 => 0x40
    case 4 => 0x01 case 5 => 0xC0 case 6 => 0x80 case 7 => 0x41
    case 8 => 0x01 case 9 => 0xC0 case 10 => 0x80 case 11 => 0x41
    case 12 => 0x00 case 13 => 0xC1 case 14 => 0x81 case _ => 0x40
  }

  /** aucCRCHi */
  function CrcHi(b: byte): byte {
    var k := b & 0xF;
    match b >> 4
    case 0 => RowHi0(k) case 1 => RowHi1(k) case 2 => RowHi2(k) case 3 => RowHi3(k)
    case 4 => RowHi4(k) case 5 => RowHi5(k) case 6 => RowHi6(k) case 7 => RowHi7(k)
    case 8 => RowHi8(k) case 9 => RowHi9(k) case 10 => RowHiA(k) case 11 => RowHiB(k)
    case 12 => RowHiC(k) case 13 => RowHiD(k) case 14 => RowHiE(k) case _ => RowHiF(k)
  }

  function RowLo0(k: byte): byte {
    match k
    case 0 => 0x00 case 1 => 0xC0 case 2 => 0xC1 case 3 => 0x01
    case 4 => 0xC3 case 5 => 0x03 case 6 => 0x02 case 7 => 0xC2
    case 8 => 0xC6 case 9 => 0x06 case 10 => 0x07 case 11 => 0xC7
    case 12 => 0x05 case 13 => 0xC5 case 14 => 0xC4 case _ => 0x04
  }

  function RowLo1(k: byte): byte {
    match k
    case 0 => 0xCC case 1 => 0x0C case 2 => 0x0D case 3 => 0xCD
    case 4 => 0x0F case 5 => 0xCF case 6 => 0xCE case 7 => 0x0E
    case 8 => 0x0A case 9 => 0xCA case 10 => 0xCB case 11 => 0x0B
    case 12 => 0xC9 case 13 => 0x09 case 14 => 0x08 case _ => 0xC8
  }

  function RowLo2(k: byte): byte {
    match k
    case 0 => 0xD8 case 1 => 0x18 case 2 => 0x19 case 3 => 0xD9
    case 4 => 0x1B case 5 => 0xDB case 6 => 0xDA case 7 => 0x1A
    case 8 => 0x1E case 9 => 0xDE case 10 => 0xDF case 11 => 0x1F
    case 12 => 0xDD case 13 => 0x1D case 14 => 0x1C case _ => 0xDC
  }

  function RowLo3(k: byte): byte {
    match k
    case 0 => 0x14 case 1 => 0xD4 case 2 => 0xD5 case 3 => 0x15
    case 4 => 0xD7 case 5 => 0x17 case 6 => 0x16 case 7 => 0xD6
    case 8 => 0xD2 case 9 => 0x12 case 10 => 0x13 case 11 => 0xD3
    case 12 => 0x11 case 13 => 0xD1 case 14 => 0xD0 case _ => 0x10
  }

  function RowLo4(k: byte): byte {
    match k
    case 0 => 0xF0 case 1 => 0x30 case 2 => 0x31 case 3 => 0xF1
    case 4 => 0x33 case 5 => 0xF3 case 6 => 0xF2 case 7 => 0x32
    case 8 => 0x36 case 9 => 0xF6 case 10 => 0xF7 case 11 => 0x37
    case 12 => 0xF5 case 13 => 0x35 case 14 => 0x34 case _ => 0xF4
  }

  function RowLo5(k: byte): byte {
    match k
    case 0 => 0x3C case 1 => 0xFC case 2 => 0xFD case 3 => 0x3D
    case 4 => 0xFF case 5 => 0x3F case 6 => 0x3E case 7 => 0xFE
    case 8 => 0xFA case 9 => 0x3A case 10 => 0x3B case 11 => 0xFB
    case 12 => 0x39 case 13 => 0xF9 case 14 => 0xF8 case _ => 0x38
  }

  function RowLo6(k: byte): byte {
    match k
    case 0 => 0x28 case 1 => 0xE8 case 2 => 0xE9 case 3 => 0x29
    case 4 => 0xEB case 5 => 0x2B case 6 => 0x2A case 7 => 0xEA
    case 8 => 0xEE case 9 => 0x2E case 10 => 0x2F case 11 => 0xEF
    case 12 => 0x2D case 13 => 0xED case 14 => 0xEC case _ => 0x2C
  }

  function RowLo7(k: byte): byte {
    match k
    case 0 => 0xE4 case 1 => 0x24 case 2 => 0x25 case 3 => 0xE5
    case 4 => 0x27 case 5 => 0xE7 case 6 => 0xE6 case 7 => 0x26
    case 8 => 0x22 case 9 => 0xE2 case 10 => 0xE3 case 11 => 0x23
    case 12 => 0xE1 case 13 => 0x21 case 14 => 0x20 case _ => 0xE0
  }

  function RowLo8(k: byte): byte {
    match k
    case 0 => 0xA0 case 1 => 0x60 case 2 => 0x61 case 3 => 0xA1
    case 4 => 0x63 case 5 => 0xA3 case 6 => 0xA2 case 7 => 0x62
    case 8 => 0x66 case 9 => 0xA6 case 10 => 0xA7 case 11 => 0x67
    case 12 => 0xA5 case 13 => 0x65 case 14 => 0x64 case _ => 0xA4
  }

  function RowLo9(k: byte): byte {
    match k
    case 0 => 0x6C case 1 => 0xAC case 2 => 0xAD case 3 => 0x6D
    case 4 => 0xAF case 5 => 0x6F case 6 => 0x6E case 7 => 0xAE
    case 8 => 0xAA case 9 => 0x6A case 10 => 0x6B case 11 => 0xAB
    case 12 => 0x69 case 13 => 0xA9 case 14 => 0xA8 case _ => 0x68
  }

  function RowLoA(k: byte): byte {
    match k
    case 0 => 0x78 case 1 => 0xB8 case 2 => 0xB9 case 3 => 0x79
    case 4 => 0xBB case 5 => 0x7B case 6 => 0x7A case 7 => 0xBA
    case 8 => 0xBE case 9 => 0x7E case 10 => 0x7F case 11 => 0xBF
    case 12 => 0x7D case 13 => 0xBD case 14 => 0xBC case _ => 0x7C
  }

  function RowLoB(k: byte): byte {
    match k
    case 0 => 0xB4 case 1 => 0x74 case 2 => 0x75 case 3 => 0xB5
    case 4 => 0x77 case 5 => 0xB7 case 6 => 0xB6 case 7 => 0x76
    case 8 => 0x72 case 9 => 0xB2 case 10 => 0xB3 case 11 => 0x73
    case 12 => 0xB1 case 13 => 0x71 case 14 => 0x70 case _ => 0xB0
  }

  function RowLoC(k: byte): byte {
    match k
    case 0 => 0x50 case 1 => 0x90 case 2 => 0x91 case 3 => 0x51
    case 4 => 0x93 case 5 => 0x53 case 6 => 0x52 case 7 => 0x92
    case 8 => 0x96 case 9 => 0x56 case 10 => 0x57 case 11 => 0x97
    case 12 => 0x55 case 13 => 0x95 case 14 => 0x94 case _ => 0x54
  }

  function RowLoD(k: byte): byte {
    match k
    case 0 => 0x9C case 1 => 0x5C case 2 => 0x5D case 3 => 0x9D
    case 4 => 0x5F case 5 => 0x9F case 6 => 0x9E case 7 => 0x5E
    case 8 => 0x5A case 9 => 0x9A case 10 => 0x9B case 11 => 0x5B
    case 12 => 0x99 case 13 => 0x59 case 14 => 0x58 case _ => 0x98
  }

  function RowLoE(k: byte): byte {
    match k
    case 0 => 0x88 case 1 => 0x48 case 2 => 0x49 case 3 => 0x89
    case 4 => 0x4B case 5 => 0x8B case 6 => 0x8A case 7 => 0x4A
    case 8 => 0x4E case 9 => 0x8E case 10 => 0x8F case 11 => 0x4F
    case 12 => 0x8D case 13 => 0x4D case 14 => 0x4C case _ => 0x8C
  }

  function RowLoF(k: byte): byte {
    match k
    case 0 => 0x44 case 1 => 0x84 case 2 => 0x85 case 3 => 0x45
    case 4 => 0x87 case 5 => 0x47 case 6 => 0x46 case 7 => 0x86
    case 8 => 0x82 case 9 => 0x42 case 10 => 0x43 case 11 => 0x83
    case 12 => 0x41 case 13 => 0x81 case 14 => 0x80 case _ => 0x40
  }

  /** aucCRCLo */
  function CrcLo(b: byte): byte {
    var k := b & 0xF;
    match b >> 4
    case 0 => RowLo0(k) case 1 => RowLo1(k) case 2 => RowLo2(k) case 3 => RowLo3(k)
    case 4 => RowLo4(k) case 5 => RowLo5(k) case 6 => RowLo6(k) case 7 => RowLo7(k)
    case 8 => RowLo8(k) case 9 => RowLo9(k) case 10 => RowLoA(k) case 11 => RowLoB(k)
    case 12 => RowLoC(k) case 13 => RowLoD(k) case 14 => RowLoE(k) case _ => RowLoF(k)
  }
}
