/** The values the record manager works with: a record (also the shape of
    the entry form), the sortable columns, the sort direction and the page
    size. */
module Records {

  /** One managed entry. Records have no identity besides their position. */
  datatype Record = Record(name: string, email: string, password: string, hobby: string)

  /** The cleared entry form. */
  const EmptyForm: Record := Record("", "", "", "")

  /** The three columns whose headers sort the table. */
  datatype SortField = Name | Email | Hobby

  datatype SortOrder = Asc | Desc

  /** JavaScript's `null` or a value. */
  datatype Option<T> = None | Some(value: T)

  /** Rows shown on one page. */
  const ItemsPerPage: nat := 3

  /** `record[sortField]`: the column a record is sorted on. */
  function Key(r: Record, f: SortField): string
  {
    match f
    case Name => r.name
    case Email => r.email
    case Hobby => r.hobby
  }
}
