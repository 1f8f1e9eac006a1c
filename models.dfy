/** Value shapes of the booking system's persistence core: the rows of the four
    tables that the appointment repository reads and writes, and the hydrated
    Appointment model it hands back to its callers. */
module Models {

  /** `None` stands for a C# null reference. */
  datatype Option<+T> = None | Some(value: T)

  /** The outcome of an operation that may throw a business-rule exception. */
  datatype Result<+R, +E> = Success(value: R) | Failure(error: E)

  /** Instants (DateTime) and spans (TimeSpan) counted in .NET ticks of 100 ns. */
  type Ticks = int

  const TicksPerHour: Ticks := 36_000_000_000

  /** The span the cancellation rule adds to the current time: 24 hours. */
  const CancellationNotice: Ticks := 24 * TicksPerHour

  /** A price. The source keeps a double that the repository only copies. */
  type Price = real

  /** An account row (customer or employee); its string columns may be null. */
  datatype Account = Account(
    id: int,
    accountType: Option<string>,
    name: Option<string>,
    phoneNumber: Option<string>,
    sex: Option<string>,
    email: Option<string>)

  /** A treatment of the catalogue; the read paths copy it field by field. */
  datatype Treatment = Treatment(id: int, name: Option<string>, duration: Ticks, price: Price)

  /** A row of the appointments table. */
  datatype AppointmentEntity = AppointmentEntity(
    id: int,
    customerId: int,
    employeeId: int,
    date: Ticks,
    duration: Ticks,
    totalPrice: Price,
    appointmentEnd: Ticks)

  /** A row of the appointment-treatment link table. */
  datatype AppointmentTreatmentEntity = AppointmentTreatmentEntity(appointmentId: int, treatmentId: int)

  /** The Appointment model the repository returns. A field that a projection does
      not set keeps its C# default: 0 for numbers, null (`None`) for references. */
  datatype Appointment = Appointment(
    id: int,
    customerId: int,
    employeeId: int,
    date: Ticks,
    duration: Ticks,
    treatmentsList: Option<seq<Option<Treatment>>>,
    totalPrice: Price,
    customer: Option<Account>,
    employee: Option<Account>,
    appointmentEnd: Ticks)

  /** The four relations behind the repository's database context. */
  datatype Tables = Tables(
    accounts: map<int, Account>,
    treatments: map<int, Treatment>,
    appointments: seq<AppointmentEntity>,
    links: seq<AppointmentTreatmentEntity>)

  /** The one business-rule failure: the exception thrown by the delete cutoff. */
  datatype Error = CutoffViolation(message: string)

  const CutoffMessage: string := "You cannot delete an appointment less than 24 hours before"

  /** A treatment list a caller may hand in: the source dereferences every entry. */
  predicate NoNullEntries(list: Option<seq<Option<Treatment>>>)
  {
    list.Some? ==> forall t :: t in list.value ==> t.Some?
  }
}
