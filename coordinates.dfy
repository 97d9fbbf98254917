/** Where protocol.py's validate_coordinate and game_model.py's _coord_to_indices meet: every coordinate
    the protocol accepts names a cell of the board. */
module Coordinates {
  import opened Ascii
  import opened GameModel
  import P = Protocol

  /** A column letter that validate_coordinate accepts is one of the board's letters. */
  lemma ColumnLetter(c: char)
    requires Contains(P.Columns, [c])
    ensures c in Alphabet() && 'A' <= c <= 'I'
  {
    ContainsChar(P.Columns, c);
    P.SpansInOrder();
    P.InSpan(P.Columns, 'A', c);
    assert Alphabet()[c as int - 'A' as int] == c;
  }

  /** A row digit that validate_coordinate accepts is 1..9. */
  lemma RowDigit(c: char)
    requires Contains(P.Rows, [c])
    ensures '1' <= c <= '9'
  {
    ContainsChar(P.Rows, c);
    P.SpansInOrder();
    P.InSpan(P.Rows, '1', c);
  }

  /** A coordinate validate_coordinate accepts is one _coord_to_indices can convert. */
  lemma ValidIsIndexable(coord: string)
    requires P.ValidateCoordinate(coord)
    ensures Indexable(coord)
  {
    ColumnLetter(UpperChar(coord[0]));
    RowDigit(coord[1]);
  }

  /** A one-letter column and a one-digit row that validate_coordinate accepts make a coordinate
      _coord_to_indices can convert. */
  lemma ListCoordinate(col: string, row: string)
    requires |col| == 1 && |row| == 1
    requires Contains(P.Columns, Upper(col)) && Contains(P.Rows, row)
    ensures Indexable(col + row)
  {
    assert Upper(col) == [UpperChar(col[0])];
    assert row == [row[0]];
    ColumnLetter(UpperChar(col[0]));
    RowDigit(row[0]);
  }
}
