/** Constant tables of bytes, written in rows of sixteen as in the C source. */
module Tables {
  /** The entry of `i` in its row of sixteen, by the low four bits of `i`. */
  function Row(i: bv8, v0: bv8, v1: bv8, v2: bv8, v3: bv8, v4: bv8, v5: bv8, v6: bv8, v7: bv8,
               v8: bv8, v9: bv8, vA: bv8, vB: bv8, vC: bv8, vD: bv8, vE: bv8, vF: bv8): bv8
  {
    if i & 8 == 0 then
      if i & 4 == 0 then if i & 2 == 0 then (if i & 1 == 0 then v0 else v1) else (if i & 1 == 0 then v2 else v3)
      else if i & 2 == 0 then (if i & 1 == 0 then v4 else v5) else (if i & 1 == 0 then v6 else v7)
    else
      if i & 4 == 0 then if i & 2 == 0 then (if i & 1 == 0 then v8 else v9) else (if i & 1 == 0 then vA else vB)
      else if i & 2 == 0 then (if i & 1 == 0 then vC else vD) else (if i & 1 == 0 then vE else vF)
  }
}
