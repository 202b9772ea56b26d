/** One player's input for one tic (d_ticcmd.h) and the C integer types of its fields. */
module TicCommand {

  type Byte = x: int | 0 <= x < 0x100
  type SByte = x: int | -0x80 <= x < 0x80
  type Short = x: int | -0x8000 <= x < 0x8000

  function ToByte(x: int): (r: Byte)
    ensures (r - x) % 0x100 == 0
  {
    x % 0x100
  }

  function ToSByte(x: int): (r: SByte)
    ensures (r - x) % 0x100 == 0
  {
    (x + 0x80) % 0x100 - 0x80
  }

  function ToShort(x: int): (r: Short)
    ensures (r - x) % 0x1_0000 == 0
  {
    (x + 0x8000) % 0x1_0000 - 0x8000
  }

  datatype Ticcmd = Ticcmd(forwardmove: SByte, sidemove: SByte, angleturn: Short,
                           chatchar: Byte, buttons: Byte, consistancy: Byte)

  const EMPTY_TICCMD := Ticcmd(0, 0, 0, 0, 0, 0)
}
