/** The student flag byte: bit 0x80 marks a female student, bit 0x40 a graduate one. */
module Flags {
  import opened Bytes

  const FEMALE_BIT: bv8 := 0x80
  const GRADUATE_BIT: bv8 := 0x40

  /** `is_female`: `(flags & 0x80) != 0`, i.e. the byte's top bit. */
  function IsFemale(flags: byte): (r: bool)
    ensures r <==> flags >= 0x80
  {
    (flags as bv8) & FEMALE_BIT != 0
  }

  /** `is_graduate`: `(flags & 0x40) != 0`, the second-highest bit. */
  function IsGraduate(flags: byte): (r: bool)
    ensures r <==> (flags as int / 0x40) % 2 == 1
  {
    (flags as bv8) & GRADUATE_BIT != 0
  }

  /** `get_gender`: the label printed for a student's flags. */
  function GetGender(flags: byte): (gender: string)
    ensures gender == "Femenino" <==> flags >= 0x80
    ensures gender == "Masculino" <==> flags < 0x80
  {
    if IsFemale(flags) then "Femenino" else "Masculino"
  }
}
