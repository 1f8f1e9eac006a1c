/** The repository's read paths: LINQ projections over the tables that rebuild
    ("hydrate") each Appointment with its treatments and account projections. */
module Queries {
  import opened Models

  /** LINQ's `Where`: the elements of `s` that satisfy `p`, in their order. */
  function Filter<T(!new)>(s: seq<T>, p: T -> bool): (r: seq<T>)
    ensures |r| <= |s|
    ensures forall x :: x in r <==> x in s && p(x)
    ensures forall x :: p(x) ==> multiset(r)[x] == multiset(s)[x]
  {
    if s == [] then []
    else
      assert s == [s[0]] + s[1..];
      if p(s[0]) then [s[0]] + Filter(s[1..], p) else Filter(s[1..], p)
  }

  /** Filtering distributes over concatenation, so it keeps table order. */
  lemma {:induction false} FilterAppend<T(!new)>(a: seq<T>, b: seq<T>, p: T -> bool)
    ensures Filter(a + b, p) == Filter(a, p) + Filter(b, p)
  {
    if a == [] {
      assert a + b == b;
    } else {
      assert (a + b)[1..] == a[1..] + b;
      FilterAppend(a[1..], b, p);
    }
  }

  lemma FilterNone<T(!new)>(s: seq<T>, p: T -> bool)
    requires forall x :: x in s ==> !p(x)
    ensures Filter(s, p) == []
  {
  }

  lemma {:induction false} FilterAll<T(!new)>(s: seq<T>, p: T -> bool)
    requires forall x :: x in s ==> p(x)
    ensures Filter(s, p) == s
  {
    if s != [] {
      assert s[0] in s;
      forall x | x in s[1..] ensures p(x) {
        assert x in s;
      }
      FilterAll(s[1..], p);
    }
  }

  function HasId(id: int): AppointmentEntity -> bool
  {
    (row: AppointmentEntity) => row.id == id
  }

  function OfEmployee(employeeId: int): AppointmentEntity -> bool
  {
    (row: AppointmentEntity) => row.employeeId == employeeId
  }

  function OfCustomer(customerId: int): AppointmentEntity -> bool
  {
    (row: AppointmentEntity) => row.customerId == customerId
  }

  function LinkedTo(appointmentId: int): AppointmentTreatmentEntity -> bool
  {
    (l: AppointmentTreatmentEntity) => l.appointmentId == appointmentId
  }

  /** The link rows of one appointment, in link-table order. */
  function LinksOf(links: seq<AppointmentTreatmentEntity>, appointmentId: int): (r: seq<AppointmentTreatmentEntity>)
    ensures forall l :: l in r <==> l in links && l.appointmentId == appointmentId
    ensures forall l: AppointmentTreatmentEntity :: l.appointmentId == appointmentId ==> multiset(r)[l] == multiset(links)[l]
  {
    Filter(links, LinkedTo(appointmentId))
  }

  /** Following a link's `Treatment` navigation: null when the treatment is missing. */
  function Resolve(treatments: map<int, Treatment>, treatmentId: int): Option<Treatment>
  {
    if treatmentId in treatments then Some(treatments[treatmentId]) else None
  }

  /** The `TreatmentsList` of one appointment: one entry per link row of that
      appointment, in link order; a link whose treatment is missing gives null. */
  function TreatmentsOf(db: Tables, appointmentId: int): (r: seq<Option<Treatment>>)
    ensures |r| == |LinksOf(db.links, appointmentId)|
    ensures forall i :: 0 <= i < |r| ==> r[i] == Resolve(db.treatments, LinksOf(db.links, appointmentId)[i].treatmentId)
    ensures forall t :: Some(t) in r <==>
      exists l :: l in db.links && l.appointmentId == appointmentId && l.treatmentId in db.treatments && db.treatments[l.treatmentId] == t
    ensures None in r <==>
      exists l :: l in db.links && l.appointmentId == appointmentId && l.treatmentId !in db.treatments
  {
    var hits := LinksOf(db.links, appointmentId);
    var r := seq(|hits|, i requires 0 <= i < |hits| => Resolve(db.treatments, hits[i].treatmentId));
    ResolvedLinksFacts(db, appointmentId, hits, r);
    r
  }

  lemma ResolvedLinksFacts(db: Tables, appointmentId: int, hits: seq<AppointmentTreatmentEntity>, r: seq<Option<Treatment>>)
    requires forall l :: l in hits <==> l in db.links && l.appointmentId == appointmentId
    requires |r| == |hits|
    requires forall i :: 0 <= i < |r| ==> r[i] == Resolve(db.treatments, hits[i].treatmentId)
    ensures forall t :: Some(t) in r <==>
      exists l :: l in db.links && l.appointmentId == appointmentId && l.treatmentId in db.treatments && db.treatments[l.treatmentId] == t
    ensures None in r <==>
      exists l :: l in db.links && l.appointmentId == appointmentId && l.treatmentId !in db.treatments
  {
    forall l | l in hits ensures Resolve(db.treatments, l.treatmentId) in r {
      var i :| 0 <= i < |hits| && hits[i] == l;
      assert r[i] == Resolve(db.treatments, l.treatmentId);
    }
    forall x | x in r ensures exists l :: l in hits && x == Resolve(db.treatments, l.treatmentId) {
      var i :| 0 <= i < |r| && r[i] == x;
      assert hits[i] in hits;
    }
  }

  /** When every link of the appointment resolves, its list holds no null entry. */
  lemma NoMissingTreatment(db: Tables, appointmentId: int)
    requires LinksResolve(db, appointmentId)
    ensures None !in TreatmentsOf(db, appointmentId)
  {
  }

  /** The customer as the read paths project it: id, name and phone number only. */
  function CustomerProjection(a: Account): Account
  {
    Account(a.id, None, a.name, a.phoneNumber, None, None)
  }

  /** The employee as the read paths project it: id and name only. */
  function EmployeeProjection(a: Account): Account
  {
    Account(a.id, None, a.name, None, None, None)
  }

  /** The paths that project Customer and Employee dereference both navigations. */
  predicate AccountsResolve(db: Tables, row: AppointmentEntity)
  {
    row.customerId in db.accounts && row.employeeId in db.accounts
  }

  /** The paths without a null check on `te.Treatment` dereference every link's treatment. */
  predicate LinksResolve(db: Tables, appointmentId: int)
  {
    forall l :: l in db.links && l.appointmentId == appointmentId ==> l.treatmentId in db.treatments
  }

  /** The scalar columns of a row with its treatments, and no account projections
      (the shape GetAppointmentFromHairdresser builds). */
  function RowView(db: Tables, row: AppointmentEntity): Appointment
  {
    Appointment(row.id, row.customerId, row.employeeId, row.date, row.duration,
                Some(TreatmentsOf(db, row.id)), row.totalPrice, None, None, row.appointmentEnd)
  }

  /** RowView with the Customer and Employee projections (GetAppointmentFromUser). */
  function AccountView(db: Tables, row: AppointmentEntity): Appointment
    requires AccountsResolve(db, row)
  {
    RowView(db, row).(customer := Some(CustomerProjection(db.accounts[row.customerId])),
                      employee := Some(EmployeeProjection(db.accounts[row.employeeId])))
  }

  /** The shape of readAllAppointments and DeleteAppointment: neither foreign key is copied. */
  function ListView(db: Tables, row: AppointmentEntity): Appointment
    requires AccountsResolve(db, row)
  {
    AccountView(db, row).(customerId := 0, employeeId := 0)
  }

  /** The shape of ReadById: Employeeid is copied, Customerid is not. */
  function DetailView(db: Tables, row: AppointmentEntity): Appointment
    requires AccountsResolve(db, row)
  {
    AccountView(db, row).(customerId := 0)
  }

  /** `FirstOrDefault(ae => ae.Id == id)` over the appointments table. */
  function FindRow(appointments: seq<AppointmentEntity>, id: int): (r: Option<AppointmentEntity>)
    ensures r.Some? <==> exists row :: row in appointments && row.id == id
    ensures r.Some? ==> r.value in appointments && r.value.id == id
  {
    var hits := Filter(appointments, HasId(id));
    if hits == [] then
      None
    else
      assert hits[0] in hits;
      Some(hits[0])
  }

  /** readAllAppointments: every row of the table, in table order. */
  function ReadAllAppointments(db: Tables): (r: seq<Appointment>)
    requires forall row :: row in db.appointments ==> AccountsResolve(db, row)
    ensures |r| == |db.appointments|
    ensures forall row :: row in db.appointments ==> ListView(db, row) in r
    ensures forall a :: a in r ==> exists row :: row in db.appointments && a == ListView(db, row)
    ensures forall a :: a in r ==> a.customerId == 0 && a.employeeId == 0 && a.customer.Some? && a.employee.Some?
  {
    var rows := db.appointments;
    var r := seq(|rows|, i requires 0 <= i < |rows| => ListView(db, rows[i]));
    assert forall row :: row in rows ==> ListView(db, row) in r by {
      forall row | row in rows ensures ListView(db, row) in r {
        var i :| 0 <= i < |rows| && rows[i] == row;
        assert r[i] == ListView(db, row);
      }
    }
    r
  }

  /** ReadById: the row with that id, hydrated, or null when there is none. */
  function ReadById(db: Tables, appointmentId: int): (r: Option<Appointment>)
    requires forall row :: row in db.appointments && row.id == appointmentId ==> AccountsResolve(db, row)
    ensures r.Some? <==> exists row :: row in db.appointments && row.id == appointmentId
    ensures r.Some? ==> r.value.id == appointmentId
    ensures r.Some? ==> r.value.treatmentsList == Some(TreatmentsOf(db, appointmentId))
    ensures r.Some? ==> exists row :: row in db.appointments && row.id == appointmentId && r.value == DetailView(db, row)
  {
    match FindRow(db.appointments, appointmentId)
    case None => None
    case Some(row) => Some(DetailView(db, row))
  }

  /** GetAppointmentFromHairdresser: exactly the rows booked with that employee. */
  function GetAppointmentFromHairdresser(db: Tables, employeeId: int): (r: seq<Appointment>)
    requires forall row :: row in db.appointments && row.employeeId == employeeId ==> LinksResolve(db, row.id)
    ensures |r| == |Filter(db.appointments, OfEmployee(employeeId))|
    ensures forall i :: 0 <= i < |r| ==> r[i] == RowView(db, Filter(db.appointments, OfEmployee(employeeId))[i])
    ensures forall row :: row in db.appointments && row.employeeId == employeeId ==> RowView(db, row) in r
    ensures forall a :: a in r ==> exists row :: row in db.appointments && row.employeeId == employeeId && a == RowView(db, row)
    ensures forall a :: a in r ==> a.employeeId == employeeId && a.customer == None && a.employee == None
    ensures forall a :: a in r ==> a.treatmentsList.Some? && None !in a.treatmentsList.value
  {
    var rows := Filter(db.appointments, OfEmployee(employeeId));
    assert forall row :: row in rows <==> row in db.appointments && row.employeeId == employeeId;
    var r := seq(|rows|, i requires 0 <= i < |rows| => RowView(db, rows[i]));
    EmployeeListFacts(db, employeeId, rows, r);
    r
  }

  lemma EmployeeListFacts(db: Tables, employeeId: int, rows: seq<AppointmentEntity>, r: seq<Appointment>)
    requires forall row :: row in rows <==> row in db.appointments && row.employeeId == employeeId
    requires forall row :: row in db.appointments && row.employeeId == employeeId ==> LinksResolve(db, row.id)
    requires |r| == |rows|
    requires forall i :: 0 <= i < |rows| ==> r[i] == RowView(db, rows[i])
    ensures forall row :: row in db.appointments && row.employeeId == employeeId ==> RowView(db, row) in r
    ensures forall a :: a in r ==> exists row :: row in db.appointments && row.employeeId == employeeId && a == RowView(db, row)
    ensures forall a :: a in r ==> a.employeeId == employeeId && a.customer == None && a.employee == None
    ensures forall a :: a in r ==> a.treatmentsList.Some? && None !in a.treatmentsList.value
  {
    forall row | row in db.appointments && row.employeeId == employeeId ensures RowView(db, row) in r {
      assert row in rows;
      var i :| 0 <= i < |rows| && rows[i] == row;
      assert r[i] == RowView(db, row);
    }
    forall i | 0 <= i < |r|
      ensures rows[i] in db.appointments && rows[i].employeeId == employeeId
      ensures None !in r[i].treatmentsList.value
    {
      assert rows[i] in rows;
      NoMissingTreatment(db, rows[i].id);
    }
  }

  /** What every entry of a customer's list shows. */
  predicate UserEntry(db: Tables, userId: int, a: Appointment)
  {
    && a.customerId == userId
    && userId in db.accounts
    && a.customer == Some(CustomerProjection(db.accounts[userId]))
    && a.treatmentsList.Some?
    && None !in a.treatmentsList.value
  }

  /** GetAppointmentFromUser: exactly the rows booked by that customer. */
  function GetAppointmentFromUser(db: Tables, userId: int): (r: seq<Appointment>)
    requires forall row :: row in db.appointments && row.customerId == userId ==>
      AccountsResolve(db, row) && LinksResolve(db, row.id)
    ensures |r| == |Filter(db.appointments, OfCustomer(userId))|
    ensures forall i :: 0 <= i < |r| ==>
      && AccountsResolve(db, Filter(db.appointments, OfCustomer(userId))[i])
      && r[i] == AccountView(db, Filter(db.appointments, OfCustomer(userId))[i])
    ensures forall row :: row in db.appointments && row.customerId == userId ==> AccountView(db, row) in r
    ensures forall a :: a in r ==> exists row :: row in db.appointments && row.customerId == userId && a == AccountView(db, row)
    ensures forall a :: a in r ==> UserEntry(db, userId, a)
  {
    var rows := Filter(db.appointments, OfCustomer(userId));
    assert forall row :: row in rows <==> row in db.appointments && row.customerId == userId;
    var r := seq(|rows|, i requires 0 <= i < |rows| => assert rows[i] in rows; AccountView(db, rows[i]));
    UserListFacts(db, userId, rows, r);
    r
  }

  lemma UserListFacts(db: Tables, userId: int, rows: seq<AppointmentEntity>, r: seq<Appointment>)
    requires forall row :: row in rows <==> row in db.appointments && row.customerId == userId
    requires forall row :: row in db.appointments && row.customerId == userId ==>
      AccountsResolve(db, row) && LinksResolve(db, row.id)
    requires |r| == |rows|
    requires forall i :: 0 <= i < |rows| ==> AccountsResolve(db, rows[i]) && r[i] == AccountView(db, rows[i])
    ensures forall row :: row in db.appointments && row.customerId == userId ==> AccountView(db, row) in r
    ensures forall a :: a in r ==> exists row :: row in db.appointments && row.customerId == userId && a == AccountView(db, row)
    ensures forall a :: a in r ==> UserEntry(db, userId, a)
  {
    forall row | row in db.appointments && row.customerId == userId ensures AccountView(db, row) in r {
      assert row in rows;
      var i :| 0 <= i < |rows| && rows[i] == row;
      assert r[i] == AccountView(db, row);
    }
    forall i | 0 <= i < |r| ensures UserEntry(db, userId, r[i]) && rows[i] in db.appointments && rows[i].customerId == userId {
      var row := rows[i];
      assert row in rows;
      NoMissingTreatment(db, row.id);
    }
  }
}
