/** The records the dump parser produces and the currency calculator consumes,
    and the numeric and date conversions both of them call. */
module Records {
  import opened Results

  /** A number produced by `parseInt`: `NaN`, or a value that compares under
      `===` like an integer does. `Int(n)` also stands for the results that are
      not integers in the strict sense: -0, which `===` equates with 0, and
      +/-Infinity for a digit string beyond the range of a double. */
  datatype IntValue = Int(n: int) | NaN

  /** JavaScript's `===` on numbers: `NaN` equals nothing, itself included. */
  predicate StrictEquals(a: IntValue, b: IntValue)
  {
    a.Int? && b.Int? && a.n == b.n
  }

  datatype Department = Department(id: IntValue, name: string)

  /** `date` is the text of `toUTCString()`, `amount` the text of `toFixed(2)`. */
  datatype Salary = Salary(id: IntValue, date: string, amount: string)

  /** `currency` is `None` when the amount field has no second word
      (the destructured element is `undefined`). */
  datatype Donation = Donation(id: IntValue, date: string, amount: string, currency: Option<string>)

  datatype ExchangeRate = ExchangeRate(date: string, value: string, sign: string)

  datatype Employee = Employee(
    id: IntValue,
    name: string,
    surname: string,
    department: Department,
    salaries: seq<Salary>,
    donations: seq<Donation>)

  datatype ParsedDump = ParsedDump(
    employees: seq<Employee>,
    departments: seq<Department>,
    exchangeRates: seq<ExchangeRate>)

  /** The exceptions a parse can end in. Each is a TypeError in the source:
      reading `split` or `trim` of `undefined`, or `replace` of `undefined`. */
  datatype ParseError =
    | MissingLine                 // a field line past the end of the lines
    | MissingColon(line: string)  // a field line without ':'
    | MissingEmployeeBlock        // no "Employee" in the dump
    | MissingRatesBlock           // no "Rates" in the last employee chunk

  /** The JavaScript number and date conversions, which the model does not
      interpret:
      - `parseInt(s)`;
      - `parseFloat(s).toFixed(2)`;
      - `new Date(s).toUTCString()`;
      - `parseFloat(a * b).toFixed(2)` for two numeric strings `a` and `b`. */
  datatype Conversions = Conversions(
    parseInt: string -> IntValue,
    toFixed2: string -> string,
    toUtcString: string -> string,
    multiplyToFixed2: (string, string) -> string)
}
